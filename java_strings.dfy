/**
 * The parts of Java's String and Integer library that the scanner and the year
 * validator rely on, written out so that their edge cases are explicit:
 * `trim`, `indexOf`, `endsWith`, `split` (which drops trailing empty pieces) and
 * `Integer.parseInt` (sign, digits, 32-bit range).
 */
module JavaStrings {
  import opened Wrappers

  /** `String.trim` removes every character up to U+0020 from both ends. */
  predicate IsTrimmed(c: char) { c <= ' ' }

  predicate IsAsciiDigit(c: char) { '0' <= c <= '9' }

  predicate AllDigits(s: string) { forall i :: 0 <= i < |s| ==> IsAsciiDigit(s[i]) }

  /** How many characters `trim` removes from the front of s. */
  function LeadCount(s: string): (k: nat)
    ensures k <= |s|
    ensures forall i :: 0 <= i < k ==> IsTrimmed(s[i])
    ensures k == |s| || !IsTrimmed(s[k])
  {
    if s != [] && IsTrimmed(s[0]) then 1 + LeadCount(s[1..]) else 0
  }

  /** The length of s once `trim` has removed characters from its back. */
  function KeptLength(s: string): (e: nat)
    ensures e <= |s|
    ensures forall i :: e <= i < |s| ==> IsTrimmed(s[i])
    ensures e == 0 || !IsTrimmed(s[e - 1])
  {
    if s != [] && IsTrimmed(s[|s| - 1]) then KeptLength(s[..|s| - 1]) else |s|
  }

  function TrimStart(s: string): (t: string)
    ensures |t| <= |s| && t == s[|s| - |t|..]
    ensures t == [] || !IsTrimmed(t[0])
    ensures forall i :: 0 <= i < |s| - |t| ==> IsTrimmed(s[i])
  {
    s[LeadCount(s)..]
  }

  function TrimEnd(s: string): (t: string)
    ensures |t| <= |s| && t == s[..|t|]
    ensures t == [] || !IsTrimmed(t[|t| - 1])
    ensures forall i :: |t| <= i < |s| ==> IsTrimmed(s[i])
  {
    s[..KeptLength(s)]
  }

  /** Java's `String.trim()`. */
  function Trim(s: string): (t: string)
    ensures t == [] || (!IsTrimmed(t[0]) && !IsTrimmed(t[|t| - 1]))
    ensures t == [] <==> forall i :: 0 <= i < |s| ==> IsTrimmed(s[i])
    ensures t != [] ==> exists k :: 0 <= k < |s| && t[0] == s[k] && forall i :: 0 <= i < k ==> IsTrimmed(s[i])
    ensures |t| <= |TrimStart(s)| && t == s[|s| - |TrimStart(s)|..|s| - |TrimStart(s)| + |t|]
    ensures forall i :: |s| - |TrimStart(s)| + |t| <= i < |s| ==> IsTrimmed(s[i])
  {
    var u := TrimStart(s);
    var t := TrimEnd(u);
    TrimmedSlice(s, u, t);
    t
  }

  /**
   * What is left of s once a trimmed prefix and then a trimmed suffix are
   * removed: a slice of s between two runs of trimmed characters, empty
   * exactly when every character is trimmed.
   */
  lemma TrimmedSlice(s: string, u: string, t: string)
    requires |u| <= |s| && u == s[|s| - |u|..] && (u == [] || !IsTrimmed(u[0]))
    requires forall i :: 0 <= i < |s| - |u| ==> IsTrimmed(s[i])
    requires |t| <= |u| && t == u[..|t|] && (t == [] || !IsTrimmed(t[|t| - 1]))
    requires forall j :: |t| <= j < |u| ==> IsTrimmed(u[j])
    ensures t == [] || (!IsTrimmed(t[0]) && !IsTrimmed(t[|t| - 1]))
    ensures t == [] <==> forall i :: 0 <= i < |s| ==> IsTrimmed(s[i])
    ensures t != [] ==> exists k :: 0 <= k < |s| && t[0] == s[k] && forall i :: 0 <= i < k ==> IsTrimmed(s[i])
    ensures t == s[|s| - |u|..|s| - |u| + |t|]
    ensures forall i :: |s| - |u| + |t| <= i < |s| ==> IsTrimmed(s[i])
  {
    var k := |s| - |u|;
    forall i | k + |t| <= i < |s| ensures IsTrimmed(s[i]) {
      assert s[i] == u[i - k];
    }
    if t != [] {
      assert t[0] == u[0] == s[k];
    }
  }

  /** `s.trim().isEmpty()`. */
  predicate IsBlank(s: string)
    ensures s == [] ==> IsBlank(s)
    ensures s != [] && !IsTrimmed(s[0]) ==> !IsBlank(s)
  {
    Trim(s) == []
  }

  /** `s.indexOf(c, from)`, with `|s|` standing for -1 (not found). */
  function IndexOf(s: string, c: char, from: nat): (k: nat)
    requires from <= |s|
    ensures from <= k <= |s|
    ensures k < |s| ==> s[k] == c
    ensures forall i :: from <= i < k ==> s[i] != c
    decreases |s| - from
  {
    if from == |s| || s[from] == c then from else IndexOf(s, c, from + 1)
  }

  /** `s.endsWith(suffix)`. */
  predicate EndsWith(s: string, suffix: string) {
    |suffix| <= |s| && s[|s| - |suffix|..] == suffix
  }

  /** Every piece between separators, empty ones included (Java's split with a negative limit). */
  function SplitAll(s: string, sep: char): (pieces: seq<string>)
    ensures |pieces| >= 1
    ensures forall i :: 0 <= i < |pieces| ==> sep !in pieces[i]
    decreases |s|
  {
    var k := IndexOf(s, sep, 0);
    if k == |s| then [s] else [s[..k]] + SplitAll(s[k + 1..], sep)
  }

  /** The inverse of SplitAll: the pieces glued back with the separator. */
  function Join(pieces: seq<string>, sep: char): string
    requires |pieces| >= 1
  {
    if |pieces| == 1 then pieces[0] else pieces[0] + [sep] + Join(pieces[1..], sep)
  }

  function DropTrailingEmpty(pieces: seq<string>): (r: seq<string>)
    ensures r <= pieces
    ensures r == [] || r[|r| - 1] != ""
    ensures forall i :: |r| <= i < |pieces| ==> pieces[i] == ""
  {
    if pieces != [] && pieces[|pieces| - 1] == "" then DropTrailingEmpty(pieces[..|pieces| - 1]) else pieces
  }

  /**
   * Java's `s.split(String.valueOf(sep))`: when the separator does not occur the
   * result is the whole string (so "" gives [""]); otherwise the pieces with the
   * trailing empty ones removed (so "," gives []).
   */
  function Split(s: string, sep: char): (r: seq<string>)
    ensures sep !in s ==> r == [s]
    ensures r <= SplitAll(s, sep)
  {
    if sep !in s then
      assert IndexOf(s, sep, 0) == |s|;
      [s]
    else DropTrailingEmpty(SplitAll(s, sep))
  }

  lemma {:induction false} JoinSplitAll(s: string, sep: char)
    ensures Join(SplitAll(s, sep), sep) == s
    decreases |s|
  {
    var k := IndexOf(s, sep, 0);
    if k < |s| {
      var rest := SplitAll(s[k + 1..], sep);
      var p := [s[..k]] + rest;
      assert SplitAll(s, sep) == p;
      assert p[0] == s[..k] && p[1..] == rest && |p| > 1;
      JoinSplitAll(s[k + 1..], sep);
      assert Join(p, sep) == s[..k] + [sep] + s[k + 1..];
      assert s == s[..k] + [sep] + s[k + 1..];
    }
  }

  lemma {:induction false} SplitAllLastPiece(s: string, sep: char)
    ensures var p := SplitAll(s, sep); p[|p| - 1] == [] <==> (s == [] || s[|s| - 1] == sep)
    decreases |s|
  {
    var k := IndexOf(s, sep, 0);
    if k < |s| {
      SplitAllLastPiece(s[k + 1..], sep);
      if s[k + 1..] == [] {
        assert s[|s| - 1] == sep;
      } else {
        assert s[|s| - 1] == s[k + 1..][|s[k + 1..]| - 1];
      }
    }
  }

  /**
   * What Split keeps: a prefix of all the pieces, followed in the input only by
   * empty pieces, all of which are dropped when the separator occurs; and, when
   * the input does not end in the separator, every piece.
   */
  lemma SplitPieces(s: string, sep: char)
    ensures Split(s, sep) <= SplitAll(s, sep)
    ensures forall i :: |Split(s, sep)| <= i < |SplitAll(s, sep)| ==> SplitAll(s, sep)[i] == ""
    ensures sep in s ==> Split(s, sep) == [] || Split(s, sep)[|Split(s, sep)| - 1] != ""
    ensures (s == [] || s[|s| - 1] != sep) ==> Split(s, sep) == SplitAll(s, sep)
    ensures forall i :: 0 <= i < |Split(s, sep)| ==> sep !in Split(s, sep)[i]
  {
    if sep !in s {
      assert IndexOf(s, sep, 0) == |s|;
    } else {
      SplitAllLastPiece(s, sep);
    }
  }

  /** The value of a string of decimal digits. */
  function DigitsValue(s: string): (v: nat)
    requires AllDigits(s)
    ensures v < Pow10(|s|)
  {
    if s == [] then 0
    else DigitsValue(s[..|s| - 1]) * 10 + (s[|s| - 1] as int - '0' as int)
  }

  function Pow10(n: nat): nat {
    if n == 0 then 1 else 10 * Pow10(n - 1)
  }

  const IntMin: int := -0x8000_0000
  const IntMax: int := 0x7fff_ffff

  /**
   * `Integer.parseInt(s)`: an optional '+' or '-', then one or more decimal digits,
   * and the value must fit in 32 bits; anything else is a NumberFormatException,
   * modelled as None.
   */
  function ParseInt(s: string): (r: Option<int>)
    ensures r.Some? ==> IntMin <= r.value <= IntMax
    ensures r.Some? && s != [] && IsAsciiDigit(s[0]) ==> AllDigits(s) && r.value == DigitsValue(s)
    ensures r.Some? ==> (s != [] && AllDigits(s)) || (2 <= |s| && (s[0] == '-' || s[0] == '+') && AllDigits(s[1..]))
  {
    if s == [] then None
    else
      var signed := s[0] == '-' || s[0] == '+';
      var body := if signed then s[1..] else s;
      if body == [] || !AllDigits(body) then None
      else
        var n: int := DigitsValue(body);
        var v := if s[0] == '-' then -n else n;
        if IntMin <= v <= IntMax then Some(v) else None
  }

  /**
   * The other direction of `ParseInt`: digits, with or without a sign, whose
   * signed value fits in 32 bits are parsed to that value.
   */
  lemma ParseIntParses(s: string)
    ensures s != [] && AllDigits(s) && DigitsValue(s) <= IntMax ==> ParseInt(s) == Some(DigitsValue(s))
    ensures 2 <= |s| && s[0] == '+' && AllDigits(s[1..]) && DigitsValue(s[1..]) <= IntMax ==>
              ParseInt(s) == Some(DigitsValue(s[1..]))
    ensures 2 <= |s| && s[0] == '-' && AllDigits(s[1..]) && DigitsValue(s[1..]) <= -IntMin ==>
              ParseInt(s) == Some(-(DigitsValue(s[1..]) as int))
  {
    if s != [] && AllDigits(s) {
      assert IsAsciiDigit(s[0]);
      assert s[0] != '-' && s[0] != '+';
    } else if 2 <= |s| && s[0] == '+' && AllDigits(s[1..]) && DigitsValue(s[1..]) <= IntMax {
      ParseIntSigned(s);
    } else if 2 <= |s| && s[0] == '-' && AllDigits(s[1..]) && DigitsValue(s[1..]) <= -IntMin {
      ParseIntSigned(s);
    }
  }

  /** A sign followed by digits is parsed as the digits' value, negated after '-', when it fits. */
  lemma ParseIntSigned(s: string)
    requires 2 <= |s| && (s[0] == '+' || s[0] == '-') && AllDigits(s[1..])
    ensures s[0] == '+' && DigitsValue(s[1..]) <= IntMax ==> ParseInt(s) == Some(DigitsValue(s[1..]))
    ensures s[0] == '-' && DigitsValue(s[1..]) <= -IntMin ==> ParseInt(s) == Some(-(DigitsValue(s[1..]) as int))
  {
  }
}
