/**
 * Hand-written matchers for the two fixed patterns of the LaTeX scanner:
 *
 *   CITE_PATTERN    \\(NAMES)\*?(?:\[[^\]]*\]){0,2}\{(?<key>[^\}]*)\}(?:\{[^\}]*\})?
 *   INCLUDE_PATTERN \\(?:include|input)\{(?<file>[^\}]*)\}
 *
 * Each pattern has a declarative reading (CiteAt, IncludeAt: "the pattern
 * matches the text between these positions"), written token by token, and an
 * executable matcher that commits to the choices Java's backtracking matcher
 * makes (CiteMatchAt, IncludeMatchAt). The lemmas show that the two agree, and
 * that the successive `Matcher.find()` calls (CiteMatches, IncludeMatches)
 * report exactly the leftmost, non-overlapping matches.
 */
module TexPatterns {
  import opened Wrappers
  import opened JavaStrings
  import opened Matches

  predicate IsAsciiLetter(c: char) { 'a' <= c <= 'z' || 'A' <= c <= 'Z' }

  predicate AllLetters(s: string) { forall i :: 0 <= i < |s| ==> IsAsciiLetter(s[i]) }

  /** The optional group of `[cC]ite(alt|alp|...|yearpar)?`, the empty string standing for its absence. */
  const CiteSuffixes: seq<string> :=
    ["", "alt", "alp", "author", "authorfull", "date", "num", "p", "t", "text", "title", "url", "year", "yearpar"]

  /** The alternatives in front of `cite` in `([aA]|[aA]uto|...|super)cite`. */
  const CitePrefixes: seq<string> :=
    ["a", "A", "auto", "Auto", "fnote", "foot", "footfull", "full", "no", "note", "Note",
     "paren", "Paren", "pnote", "Pnote", "text", "Text", "smart", "Smart", "super"]

  /** `front` put before each of the words. */
  function WithFront(front: string, words: seq<string>): set<string> {
    set x | x in words :: front + x
  }

  /** `back` put after each of the words. */
  function WithBack(words: seq<string>, back: string): set<string> {
    set x | x in words :: x + back
  }

  /**
   * The command names of CITE_COMMANDS, the four alternatives joined by `|`:
   * `[cC]ite` with an optional suffix, a prefix before `cite`, `footcitetext`
   * and `(block|text)cquote`.
   */
  const CiteCommands: set<string> :=
    WithFront("cite", CiteSuffixes) + WithFront("Cite", CiteSuffixes) + WithBack(CitePrefixes, "cite") +
    {"footcitetext", "blockcquote", "textcquote"}

  /**
   * The matchers below take the command names as a parameter, as the list of
   * cite commands is meant to be extended; all they need of it is that every
   * name is a non-empty word of letters.
   */
  predicate CommandWords(commands: set<string>) {
    forall name :: name in commands ==> name != [] && AllLetters(name)
  }

  lemma LettersAppend(a: string, b: string)
    requires AllLetters(a) && AllLetters(b)
    ensures AllLetters(a + b)
  {
    forall i | 0 <= i < |a + b| ensures IsAsciiLetter((a + b)[i]) {
      if i >= |a| {
        assert (a + b)[i] == b[i - |a|];
      }
    }
  }

  lemma WithFrontWords(front: string, words: seq<string>)
    requires front != [] && AllLetters(front)
    requires forall i :: 0 <= i < |words| ==> AllLetters(words[i])
    ensures CommandWords(WithFront(front, words))
  {
    forall name | name in WithFront(front, words) ensures name != [] && AllLetters(name) {
      var x :| x in words && name == front + x;
      var j :| 0 <= j < |words| && words[j] == x;
      LettersAppend(front, x);
    }
  }

  lemma WithBackWords(words: seq<string>, back: string)
    requires back != [] && AllLetters(back)
    requires forall i :: 0 <= i < |words| ==> AllLetters(words[i])
    ensures CommandWords(WithBack(words, back))
  {
    forall name | name in WithBack(words, back) ensures name != [] && AllLetters(name) {
      var x :| x in words && name == x + back;
      var j :| 0 <= j < |words| && words[j] == x;
      LettersAppend(x, back);
    }
  }

  lemma SuffixesLetters()
    ensures forall i :: 0 <= i < |CiteSuffixes| ==> AllLetters(CiteSuffixes[i])
  {
  }

  lemma PrefixesLetters()
    ensures forall i :: 0 <= i < |CitePrefixes| ==> AllLetters(CitePrefixes[i])
  {
  }

  lemma SingleWords()
    ensures CommandWords({"footcitetext", "blockcquote", "textcquote"})
  {
  }

  /** Every cite command name is a non-empty run of letters. */
  lemma CiteCommandsAreWords()
    ensures CommandWords(CiteCommands)
  {
    SuffixesLetters();
    PrefixesLetters();
    WithFrontWords("cite", CiteSuffixes);
    WithFrontWords("Cite", CiteSuffixes);
    WithBackWords(CitePrefixes, "cite");
    SingleWords();
  }

  /** The examples given beside CITE_COMMANDS belong to the family. */
  lemma CiteCommandsMembers()
    ensures "citep" in CiteCommands && "cite" in CiteCommands && "Cite" in CiteCommands
    ensures forall x :: x in ["author", "title", "year", "t", "p"] ==> "cite" + x in CiteCommands && "Cite" + x in CiteCommands
  {
    assert "p" in CiteSuffixes && "" in CiteSuffixes;
    assert "citep" == "cite" + "p" && "cite" == "cite" + "" && "Cite" == "Cite" + "";
    forall x | x in ["author", "title", "year", "t", "p"]
      ensures "cite" + x in CiteCommands && "Cite" + x in CiteCommands
    {
      assert x in CiteSuffixes;
    }
  }

  /** Names from each of the other alternatives belong to the family. */
  lemma CiteCommandsAlternatives()
    ensures "citeyearpar" in CiteCommands && "parencite" in CiteCommands && "Parencite" in CiteCommands
    ensures "supercite" in CiteCommands && "footcitetext" in CiteCommands
    ensures "blockcquote" in CiteCommands && "textcquote" in CiteCommands
  {
    assert "yearpar" in CiteSuffixes && "citeyearpar" == "cite" + "yearpar";
    assert "paren" in CitePrefixes && "Paren" in CitePrefixes && "super" in CitePrefixes;
    assert "parencite" == "paren" + "cite" && "Parencite" == "Paren" + "cite" && "supercite" == "super" + "cite";
  }

  /** A name that does not start with `front` is not made by putting `front` before a word. */
  lemma NotWithFront(front: string, words: seq<string>, name: string)
    requires !(front <= name)
    ensures name !in WithFront(front, words)
  {
  }

  /** A name ending in `back` is made by putting `back` after a word only if what comes before `back` is one. */
  lemma NotWithBack(words: seq<string>, back: string, name: string)
    requires |back| <= |name| && name[..|name| - |back|] !in words
    ensures name !in WithBack(words, back)
  {
    forall x | x in words ensures name != x + back {
      assert (x + back)[..|x|] == x;
    }
  }

  /** The alternatives are case-sensitive where they say so: `super` has no capital form. */
  lemma SupercitePrefixCase()
    ensures "Supercite" !in CiteCommands
  {
    assert "Supercite"[0] != "cite"[0] && "Supercite"[0] != "Cite"[0];
    NotWithFront("cite", CiteSuffixes, "Supercite");
    NotWithFront("Cite", CiteSuffixes, "Supercite");
    assert "Supercite"[..5] == "Super" && "Super" !in CitePrefixes;
    NotWithBack(CitePrefixes, "cite", "Supercite");
  }

  /** `cquote` alone is not a name: it needs `block` or `text` in front. */
  lemma CquoteNeedsPrefix()
    ensures "cquote" !in CiteCommands
  {
    assert "cquote"[1] != "cite"[1] && "cquote"[0] != "Cite"[0];
    NotWithFront("cite", CiteSuffixes, "cquote");
    NotWithFront("Cite", CiteSuffixes, "cquote");
    assert "cquote"[..2] == "cq" && "cq" !in CitePrefixes;
    NotWithBack(CitePrefixes, "cite", "cquote");
  }

  // ----- Declarative reading of the patterns -----

  /** `open [^close]* close` matches line[i..j]. */
  predicate GroupAt(line: string, i: int, j: int, open: char, close: char) {
    0 <= i && i + 2 <= j <= |line| && line[i] == open && line[j - 1] == close && close !in line[i + 1..j - 1]
  }

  /** `\*?` matches line[i..j]. */
  predicate StarAt(line: string, i: int, j: int) {
    0 <= i <= j <= |line| && (j == i || (j == i + 1 && line[i] == '*'))
  }

  /** `(?:\[[^\]]*\]){0,2}` matches line[i..j]. */
  predicate OptionalArgsAt(line: string, i: int, j: int) {
    (0 <= i == j <= |line|) || GroupAt(line, i, j, '[', ']') ||
    exists k | i < k < j :: GroupAt(line, i, k, '[', ']') && GroupAt(line, k, j, '[', ']')
  }

  /** No `open [^close]* close` starts at i. */
  ghost predicate NoGroupAt(line: string, i: int, open: char, close: char) {
    forall j :: !GroupAt(line, i, j, open, close)
  }

  /** `(?:\{[^\}]*\})?` matches line[i..j]. */
  predicate TrailingAt(line: string, i: int, j: int) {
    (0 <= i == j <= |line|) || GroupAt(line, i, j, '{', '}')
  }

  /**
   * CITE_PATTERN matches line[p..e], token by token: the backslash at p, a
   * command name line[p+1..n] from the family, an optional star line[n..b],
   * up to two bracketed arguments line[b..c], the braced key group line[c..k]
   * (the key is line[c+1..k-1]) and an optional braced argument line[k..e].
   */
  predicate CiteAt(commands: set<string>, line: string, p: int, n: int, b: int, c: int, k: int, e: int)
    ensures CiteAt(commands, line, p, n, b, c, k, e) ==> p < n && c + 2 <= k <= e <= |line|
  {
    0 <= p < |line| && line[p] == '\\' && p + 1 <= n <= b <= c < |line| &&
    line[p + 1..n] in commands && StarAt(line, n, b) && OptionalArgsAt(line, b, c) &&
    GroupAt(line, c, k, '{', '}') && TrailingAt(line, k, e)
  }

  /** INCLUDE_PATTERN matches line[p..fe+1] with its file group at line[fs..fe]. */
  predicate IncludeAt(line: string, p: int, fs: int, fe: int)
    ensures IncludeAt(line, p, fs, fe) ==> 0 <= p && p + 7 <= fs <= fe < |line| && line[fe] == '}'
  {
    0 <= p < |line| && line[p] == '\\' && p + 1 <= fs - 1 <= |line| &&
    (line[p + 1..fs - 1] == "include" || line[p + 1..fs - 1] == "input") &&
    GroupAt(line, fs - 1, fe + 1, '{', '}')
  }

  // ----- The matchers -----

  /** The end of the longest run of letters starting at i. */
  function LetterRunEnd(line: string, i: nat): (j: nat)
    requires i <= |line|
    ensures i <= j <= |line|
    ensures forall k :: i <= k < j ==> IsAsciiLetter(line[k])
    ensures j == |line| || !IsAsciiLetter(line[j])
    decreases |line| - i
  {
    if i < |line| && IsAsciiLetter(line[i]) then LetterRunEnd(line, i + 1) else i
  }

  /** Matches `open [^close]* close` at i, giving the index just past `close`. */
  function GroupEnd(line: string, i: nat, open: char, close: char): (r: Option<nat>)
    requires i <= |line|
    ensures r.Some? ==> i + 2 <= r.value <= |line| && line[i] == open && line[r.value - 1] == close
  {
    if i < |line| && line[i] == open then
      var k := IndexOf(line, close, i + 1);
      if k < |line| then Some(k + 1) else None
    else None
  }

  /** GroupEnd finds the group at i exactly when there is one. */
  lemma GroupEndSpec(line: string, i: nat, open: char, close: char)
    requires i <= |line|
    ensures var r := GroupEnd(line, i, open, close);
            (r.Some? ==> GroupAt(line, i, r.value, open, close)) && (r.None? ==> NoGroupAt(line, i, open, close))
  {
  }

  /** `close` inside a group can only be its last character, so a group has one end. */
  lemma GroupUnique(line: string, i: int, j1: int, j2: int, open: char, close: char)
    requires GroupAt(line, i, j1, open, close) && GroupAt(line, i, j2, open, close)
    ensures j1 == j2
  {
  }

  /** The greedy `{0,2}`: as many bracketed arguments as are there, at most two. */
  function OptionalArgsEnd(line: string, i: nat): (j: nat)
    requires i <= |line|
    ensures i <= j <= |line|
    ensures j > i ==> line[i] == '[' && line[j - 1] == ']'
  {
    match GroupEnd(line, i, '[', ']')
    case None => i
    case Some(k) =>
      match GroupEnd(line, k, '[', ']')
      case None => k
      case Some(l) => l
  }

  /** What OptionalArgsEnd reads is a match of the `{0,2}` group. */
  lemma OptionalArgsEndSpec(line: string, i: nat)
    requires i <= |line|
    ensures OptionalArgsAt(line, i, OptionalArgsEnd(line, i))
  {
    GroupEndSpec(line, i, '[', ']');
    var g := GroupEnd(line, i, '[', ']');
    if g.Some? {
      GroupEndSpec(line, g.value, '[', ']');
    }
  }

  /** `\\` and a command name at p: the index just past the name. */
  function CommandNameEnd(commands: set<string>, line: string, p: nat): (r: Option<nat>)
    requires p <= |line|
    ensures r.Some? ==> p < |line| && line[p] == '\\' && p + 1 <= r.value <= |line| && line[p + 1..r.value] in commands
    ensures r.Some? ==> r.value == |line| || !IsAsciiLetter(line[r.value])
  {
    if p < |line| && line[p] == '\\' then
      var n := LetterRunEnd(line, p + 1);
      if line[p + 1..n] in commands then Some(n) else None
    else None
  }

  /** A command name followed by a non-letter is the one the matcher reads. */
  lemma CommandNameEndComplete(commands: set<string>, line: string, p: nat, n: nat)
    requires CommandWords(commands)
    requires p < |line| && line[p] == '\\' && p + 1 <= n < |line| && line[p + 1..n] in commands
    requires !IsAsciiLetter(line[n])
    ensures CommandNameEnd(commands, line, p) == Some(n)
  {
    forall k | p + 1 <= k < n ensures IsAsciiLetter(line[k]) {
      assert line[k] == line[p + 1..n][k - (p + 1)];
    }
  }

  /** `\*?` read greedily at n. */
  function StarEnd(line: string, n: nat): (b: nat)
    requires n <= |line|
    ensures StarAt(line, n, b)
  {
    if n < |line| && line[n] == '*' then n + 1 else n
  }

  /** The optional trailing braced argument read greedily at k. */
  function TrailingEnd(line: string, k: nat): (e: nat)
    requires k <= |line|
    ensures k <= e <= |line|
    ensures e > k ==> line[k] == '{' && line[e - 1] == '}'
  {
    match GroupEnd(line, k, '{', '}')
    case None => k
    case Some(t) => t
  }

  /** The trailing argument is taken whenever there is one. */
  lemma TrailingEndSpec(line: string, k: nat)
    requires k <= |line|
    ensures TrailingAt(line, k, TrailingEnd(line, k))
    ensures TrailingEnd(line, k) == k ==> NoGroupAt(line, k, '{', '}')
  {
    GroupEndSpec(line, k, '{', '}');
  }

  /** CITE_PATTERN tried at position p, with the choices Java's matcher commits to. */
  function CiteMatchAt(commands: set<string>, line: string, p: nat): (r: Option<Match>)
    requires p <= |line|
    ensures r.Some? ==> r.value.start == p < r.value.groupStart <= r.value.groupEnd < r.value.end <= |line|
  {
    match CommandNameEnd(commands, line, p)
    case None => None
    case Some(n) =>
      var c := OptionalArgsEnd(line, StarEnd(line, n));
      match GroupEnd(line, c, '{', '}')
      case None => None
      case Some(k) =>
        Some(Match(p, c + 1, k - 1, TrailingEnd(line, k)))
  }

  /** The end of a match takes in the optional trailing braced argument whenever one follows. */
  ghost predicate TakesTrailing(line: string, m: Match) {
    m.groupEnd + 1 <= m.end <= |line| &&
    (m.end == m.groupEnd + 1 ==> NoGroupAt(line, m.groupEnd + 1, '{', '}'))
  }

  /** What the matcher reports is a match of the pattern, with the longest trailing part. */
  lemma CiteMatchAtSound(commands: set<string>, line: string, p: nat)
    requires p <= |line| && CiteMatchAt(commands, line, p).Some?
    ensures var m := CiteMatchAt(commands, line, p).value;
            var n := CommandNameEnd(commands, line, p).value;
            CiteAt(commands, line, p, n, StarEnd(line, n), m.groupStart - 1, m.groupEnd + 1, m.end)
    ensures TakesTrailing(line, CiteMatchAt(commands, line, p).value)
  {
    var m := CiteMatchAt(commands, line, p).value;
    var n := CommandNameEnd(commands, line, p).value;
    var b := StarEnd(line, n);
    var c := OptionalArgsEnd(line, b);
    var k := GroupEnd(line, c, '{', '}').value;
    assert m == Match(p, c + 1, k - 1, TrailingEnd(line, k));
    OptionalArgsEndSpec(line, b);
    GroupEndSpec(line, c, '{', '}');
    TrailingEndSpec(line, k);
  }

  /** A name followed by a matching star and arguments ends in `*`, `[` or `{`. */
  lemma NameFollower(line: string, n: int, b: int, c: int)
    requires 0 <= n <= b <= |line| && StarAt(line, n, b) && OptionalArgsAt(line, b, c)
    requires 0 <= c < |line| && line[c] == '{'
    ensures n < |line| && !IsAsciiLetter(line[n])
  {
  }

  /** When the pattern matches at p, the matcher finds that match: same key group, an end no shorter. */
  lemma CiteMatchAtComplete(commands: set<string>, line: string, p: nat, n: int, b: int, c: int, k: int, e: int)
    requires CommandWords(commands) && p <= |line| && CiteAt(commands, line, p, n, b, c, k, e)
    ensures CiteMatchAt(commands, line, p).Some?
    ensures CiteMatchAt(commands, line, p).value.groupStart == c + 1
    ensures CiteMatchAt(commands, line, p).value.groupEnd == k - 1
    ensures e <= CiteMatchAt(commands, line, p).value.end
  {
    NameFollower(line, n, b, c);
    CommandNameEndComplete(commands, line, p, n);
    assert StarEnd(line, n) == b;
    OptionalArgsEndUnique(line, b, c);
    KeyGroupEnd(line, c, k);
    CiteMatchAtParts(commands, line, p, n, c, k);
    TrailingEndSpec(line, k);
    TrailingLongest(line, k, e, TrailingEnd(line, k));
  }

  lemma KeyGroupEnd(line: string, c: nat, k: int)
    requires c <= |line| && GroupAt(line, c, k, '{', '}')
    ensures GroupEnd(line, c, '{', '}') == Some(k)
  {
    GroupEndSpec(line, c, '{', '}');
    GroupUnique(line, c, GroupEnd(line, c, '{', '}').value, k, '{', '}');
  }

  /** CiteMatchAt put together from the pieces it reads. */
  lemma CiteMatchAtParts(commands: set<string>, line: string, p: nat, n: nat, c: nat, k: nat)
    requires p <= |line| && CommandNameEnd(commands, line, p) == Some(n)
    requires OptionalArgsEnd(line, StarEnd(line, n)) == c && GroupEnd(line, c, '{', '}') == Some(k)
    ensures CiteMatchAt(commands, line, p) == Some(Match(p, c + 1, k - 1, TrailingEnd(line, k)))
  {
  }

  lemma TrailingLongest(line: string, i: int, e1: int, e2: int)
    requires TrailingAt(line, i, e1) && TrailingAt(line, i, e2)
    requires e2 == i ==> NoGroupAt(line, i, '{', '}')
    ensures e1 <= e2
  {
    if e1 != i && e2 != i {
      GroupUnique(line, i, e1, e2, '{', '}');
    }
  }

  /** When the key group's `{` follows the arguments, the greedy choice ends exactly there. */
  lemma OptionalArgsEndUnique(line: string, b: nat, c: int)
    requires b <= |line| && OptionalArgsAt(line, b, c) && 0 <= c < |line| && line[c] == '{'
    ensures OptionalArgsEnd(line, b) == c
  {
    var g1 := GroupEnd(line, b, '[', ']');
    if c == b {
      assert g1.None?;
    } else if GroupAt(line, b, c, '[', ']') {
      GroupUnique(line, b, c, g1.value, '[', ']');
      assert GroupEnd(line, c, '[', ']').None?;
    } else {
      var k :| b < k < c && GroupAt(line, b, k, '[', ']') && GroupAt(line, k, c, '[', ']');
      GroupUnique(line, b, k, g1.value, '[', ']');
      var g2 := GroupEnd(line, k, '[', ']');
      GroupUnique(line, k, c, g2.value, '[', ']');
    }
  }

  /** CITE_PATTERN tried at every position of the line. */
  function CiteAttempts(commands: set<string>, line: string): (t: seq<Option<Match>>)
    ensures |t| == |line| && IsAttemptTable(t)
    ensures forall p :: 0 <= p < |line| ==> t[p] == CiteMatchAt(commands, line, p)
  {
    seq(|line|, p requires 0 <= p < |line| => CiteMatchAt(commands, line, p))
  }

  /** The cite matches `find()` reports along the line, in order. */
  function CiteMatches(commands: set<string>, line: string): (ms: seq<Match>)
    ensures WithinLine(ms, |line|)
  {
    MatchesFromInTable(CiteAttempts(commands, line), 0);
    MatchesFrom(CiteAttempts(commands, line), 0)
  }

  /** INCLUDE_PATTERN tried at position p; the match ends just past the `}`. */
  function IncludeMatchAt(line: string, p: nat): (r: Option<Match>)
    requires p <= |line|
    ensures r.Some? ==> r.value.start == p && r.value.end == r.value.groupEnd + 1 &&
                        IncludeAt(line, p, r.value.groupStart, r.value.groupEnd)
  {
    if p < |line| && line[p] == '\\' then
      var c := if p + 8 <= |line| && line[p + 1..p + 8] == "include" then p + 8
               else if p + 6 <= |line| && line[p + 1..p + 6] == "input" then p + 6
               else p;
      if c == p then None
      else match GroupEnd(line, c, '{', '}')
        case None => None
        case Some(k) => Some(Match(p, c + 1, k - 1, k))
    else None
  }

  /** The matcher finds every include directive, with the same file group. */
  lemma IncludeMatchAtComplete(line: string, p: nat, fs: int, fe: int)
    requires p <= |line| && IncludeAt(line, p, fs, fe)
    ensures IncludeMatchAt(line, p) == Some(Match(p, fs, fe, fe + 1))
  {
    if line[p + 1..fs - 1] == "input" && p + 8 <= |line| && line[p + 1..p + 8] == "include" {
      assert line[p + 3] == line[p + 1..fs - 1][2];
      assert line[p + 3] == line[p + 1..p + 8][2];
    }
    var k := GroupEnd(line, fs - 1, '{', '}');
    GroupUnique(line, fs - 1, k.value, fe + 1, '{', '}');
  }

  /** INCLUDE_PATTERN tried at every position of the line. */
  function IncludeAttempts(line: string): (t: seq<Option<Match>>)
    ensures |t| == |line| && IsAttemptTable(t)
    ensures forall p :: 0 <= p < |line| ==> t[p] == IncludeMatchAt(line, p)
  {
    seq(|line|, p requires 0 <= p < |line| => IncludeMatchAt(line, p))
  }

  /** The include directives `find()` reports along the line, in order. */
  function IncludeMatches(line: string): (ms: seq<Match>)
    ensures WithinLine(ms, |line|)
  {
    MatchesFromInTable(IncludeAttempts(line), 0);
    MatchesFrom(IncludeAttempts(line), 0)
  }
}
