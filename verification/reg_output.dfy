/**
 * Reading the text `reg query` prints (index.js:30-41): the first line that
 * names a key under HKEY_LOCAL_MACHINE, and the data of a `DisplayIcon`
 * string value as the regular expression `/DisplayIcon\s+REG_SZ\s+(.+)/i`
 * captures it, trimmed and with its quote characters deleted.
 */
module RegOutput {
  import opened Wrappers
  import opened JsText

  /** A finished `reg.exe` command: it failed (non-zero exit, which the tool catches), or it printed `text`. */
  datatype Reply = Failed | Stdout(text: string)

  /** A line names a key when, trimmed, it starts with `HKEY_LOCAL_MACHINE`. */
  predicate IsKeyLine(line: string) {
    StartsWith(Trim(line), "HKEY_LOCAL_MACHINE")
  }

  /** The index `lines.find(isKeyLine)` stops at, searching from `from`. */
  function FirstKeyLine(lines: seq<string>, from: nat): (r: Option<nat>)
    requires from <= |lines|
    ensures r.Some? ==> from <= r.value < |lines|
    decreases |lines| - from
  {
    if from == |lines| then None
    else if IsKeyLine(lines[from]) then Some(from)
    else FirstKeyLine(lines, from + 1)
  }

  /** `find` stops at the first key line at or after `from`, and finds nothing only when there is none. */
  lemma {:induction false} FirstKeyLineIsFirst(lines: seq<string>, from: nat)
    requires from <= |lines|
    ensures FirstKeyLine(lines, from).Some? ==> IsKeyLine(lines[FirstKeyLine(lines, from).value])
    ensures forall j :: from <= j < FirstKeyLine(lines, from).GetOr(|lines|) ==> !IsKeyLine(lines[j])
    decreases |lines| - from
  {
    if from < |lines| && !IsKeyLine(lines[from]) {
      FirstKeyLineIsFirst(lines, from + 1);
    }
  }

  /**
   * The key a recursive search reports (index.js:30-34): the trimmed form of
   * the first `\r\n`-separated line that is a key line, or nothing when no
   * line is one.
   */
  function TargetKey(stdout: string): (r: Option<string>)
    ensures r.Some? ==> StartsWith(r.value, "HKEY_LOCAL_MACHINE")
  {
    var lines := SplitCrLf(stdout);
    FirstKeyLineIsFirst(lines, 0);
    match FirstKeyLine(lines, 0)
    case None => None
    case Some(i) => Some(Trim(lines[i]))
  }

  /** The key reported is the trimmed form of the first line of the output that is a key line. */
  lemma TargetKeyIsFirstKeyLine(stdout: string, i: nat)
    requires i < |SplitCrLf(stdout)| && IsKeyLine(SplitCrLf(stdout)[i])
    requires forall j :: 0 <= j < i ==> !IsKeyLine(SplitCrLf(stdout)[j])
    ensures TargetKey(stdout) == Some(Trim(SplitCrLf(stdout)[i]))
  {
    var lines := SplitCrLf(stdout);
    FirstKeyLineIsFirst(lines, 0);
    assert FirstKeyLine(lines, 0) == Some(i);
  }

  /** No key is reported exactly when no line of the output is a key line. */
  lemma TargetKeyNoneIffNoKeyLine(stdout: string)
    ensures TargetKey(stdout).None? <==>
            forall i :: 0 <= i < |SplitCrLf(stdout)| ==> !IsKeyLine(SplitCrLf(stdout)[i])
  {
    var lines := SplitCrLf(stdout);
    FirstKeyLineIsFirst(lines, 0);
    var first := FirstKeyLine(lines, 0);
    if first.Some? {
      var k := first.value;
      assert TargetKey(stdout) == Some(Trim(lines[k]));
      assert 0 <= k < |SplitCrLf(stdout)| && IsKeyLine(SplitCrLf(stdout)[k]);
      assert !forall i :: 0 <= i < |SplitCrLf(stdout)| ==> !IsKeyLine(SplitCrLf(stdout)[i]);
    } else {
      assert TargetKey(stdout) == None;
    }
  }

  /**
   * A listing that opens with an empty line and then a key line, the layout
   * `reg query /s /f` prints, reports that key, trimmed.
   */
  lemma TargetKeyOfListing(keyLine: string, rest: string)
    requires NoCrLf(keyLine) && IsKeyLine(keyLine)
    ensures TargetKey(CrLf + keyLine + CrLf + rest) == Some(Trim(keyLine))
  {
    SplitListing(keyLine, rest);
    KeyLineSecond(["", keyLine] + SplitCrLf(rest));
  }

  lemma SplitListing(keyLine: string, rest: string)
    requires NoCrLf(keyLine)
    ensures SplitCrLf(CrLf + keyLine + CrLf + rest) == ["", keyLine] + SplitCrLf(rest)
  {
    var tail := keyLine + CrLf + rest;
    SplitFirstLine("", tail);
    assert "" + CrLf + tail == CrLf + keyLine + CrLf + rest;
    SplitFirstLine(keyLine, rest);
  }

  lemma KeyLineSecond(lines: seq<string>)
    requires |lines| >= 2 && lines[0] == "" && IsKeyLine(lines[1])
    ensures FirstKeyLine(lines, 0) == Some(1)
  {
    assert !IsKeyLine("");
    assert FirstKeyLine(lines, 1) == Some(1);
  }

  /** Length of the longest run of whitespace (`\s`) that starts at `q`; see `WhiteSpaceRunMaximal`. */
  function WhiteSpaceRun(text: string, q: nat): (n: nat)
    requires q <= |text|
    ensures q + n <= |text|
    decreases |text| - q
  {
    if q < |text| && IsWhiteSpace(text[q]) then 1 + WhiteSpaceRun(text, q + 1) else 0
  }

  /** Length of the longest run of characters `.` matches (no line terminator) that starts at `q`. */
  function LineRun(text: string, q: nat): (n: nat)
    requires q <= |text|
    ensures q + n <= |text|
    decreases |text| - q
  {
    if q < |text| && !IsLineTerminator(text[q]) then 1 + LineRun(text, q + 1) else 0
  }

  /**
   * How many characters the greedy `\s+` before `(.+)` keeps once it has
   * backtracked: the largest `m` in `1..top` such that a character `.`
   * matches follows the first `m` characters after `r`.
   */
  function DataOffset(text: string, r: nat, top: nat): (m: Option<nat>)
    requires r <= |text|
    ensures m.Some? ==> 1 <= m.value <= top && r + m.value < |text|
    decreases top
  {
    if top == 0 then None
    else if r + top < |text| && !IsLineTerminator(text[r + top]) then Some(top)
    else DataOffset(text, r, top - 1)
  }

  /**
   * The capture of `/DisplayIcon\s+REG_SZ\s+(.+)/i` for a match that starts
   * at `p`, or nothing when no match starts there. The first `\s+` is
   * followed by a letter, so it keeps its whole run; the second one gives
   * characters back until `(.+)` can take at least one, and `(.+)` then runs
   * to the end of that line.
   */
  function MatchAt(text: string, p: nat): (r: Option<string>)
    requires p <= |text|
    ensures r.Some? ==> MatchesIgnoringCaseAt(text, p, "DisplayIcon")
  {
    if !MatchesIgnoringCaseAt(text, p, "DisplayIcon") then None
    else
      var q := p + 11;
      var k := WhiteSpaceRun(text, q);
      if k == 0 || !MatchesIgnoringCaseAt(text, q + k, "REG_SZ") then None
      else
        var r := q + k + 6;
        var w := WhiteSpaceRun(text, r);
        if w == 0 then None
        else
          match DataOffset(text, r, w)
          case None => None
          case Some(m) => Some(text[r + m .. r + m + LineRun(text, r + m)])
  }

  /**
   * The first success when a matcher is tried at start positions `from`,
   * `from + 1`, ..., `end` in turn, as a regular-expression engine scans.
   */
  function Leftmost(attempt: nat -> Option<string>, from: nat, end: nat): (r: Option<string>)
    requires from <= end
    decreases end - from
  {
    match attempt(from)
    case Some(c) => Some(c)
    case None => if from == end then None else Leftmost(attempt, from + 1, end)
  }

  /** The scan returns the success of the leftmost position that succeeds, and nothing when none does. */
  lemma {:induction false} LeftmostIsLeftmost(attempt: nat -> Option<string>, from: nat, end: nat)
    requires from <= end
    ensures Leftmost(attempt, from, end).Some? ==>
              exists p :: from <= p <= end && attempt(p) == Leftmost(attempt, from, end)
                          && forall q :: from <= q < p ==> attempt(q).None?
    ensures Leftmost(attempt, from, end).None? ==> forall p :: from <= p <= end ==> attempt(p).None?
    decreases end - from
  {
    if attempt(from).None? && from < end {
      LeftmostIsLeftmost(attempt, from + 1, end);
      if Leftmost(attempt, from, end).Some? {
        var p :| from + 1 <= p <= end && attempt(p) == Leftmost(attempt, from, end)
                 && forall q :: from + 1 <= q < p ==> attempt(q).None?;
        assert forall q :: from <= q < p ==> attempt(q).None?;
      }
    }
  }

  /** When no position before `p` succeeds and `p` does, the scan returns the success at `p`. */
  lemma {:induction false} LeftmostDecides(attempt: nat -> Option<string>, from: nat, end: nat, p: nat)
    requires from <= p <= end
    requires forall q :: from <= q < p ==> attempt(q).None?
    requires attempt(p).Some?
    ensures Leftmost(attempt, from, end) == attempt(p)
    decreases p - from
  {
    if from < p {
      LeftmostDecides(attempt, from + 1, end, p);
    }
  }

  /** One attempt of the `DisplayIcon` pattern per start position of `text`. */
  function IconAttempt(text: string): nat -> Option<string> {
    (p: nat) => if p <= |text| then MatchAt(text, p) else None
  }

  /** `text.match(re)[1]`: the capture of the leftmost match of the `DisplayIcon` pattern. */
  function FindIconMatch(text: string): Option<string> {
    Leftmost(IconAttempt(text), 0, |text|)
  }

  /** The capture returned is that of the leftmost matching position, and there is none when no position matches. */
  lemma FindIconMatchLeftmost(text: string)
    ensures FindIconMatch(text).Some? ==>
              exists p :: 0 <= p <= |text| && MatchAt(text, p) == FindIconMatch(text)
                          && forall q :: 0 <= q < p ==> MatchAt(text, q).None?
    ensures FindIconMatch(text).None? ==> forall p :: 0 <= p <= |text| ==> MatchAt(text, p).None?
  {
    var attempt := IconAttempt(text);
    LeftmostIsLeftmost(attempt, 0, |text|);
    if FindIconMatch(text).Some? {
      var p :| 0 <= p <= |text| && attempt(p) == FindIconMatch(text)
               && forall q :: 0 <= q < p ==> attempt(q).None?;
      assert forall q :: 0 <= q < p ==> MatchAt(text, q) == attempt(q);
    } else {
      assert forall p :: 0 <= p <= |text| ==> MatchAt(text, p) == attempt(p);
    }
  }

  /** When no match starts before `p` and one starts at `p`, the search returns that one. */
  lemma FirstMatchDecides(text: string, p: nat)
    requires p <= |text|
    requires forall q :: 0 <= q < p ==> MatchAt(text, q).None?
    requires MatchAt(text, p).Some?
    ensures FindIconMatch(text) == MatchAt(text, p)
  {
    var attempt := IconAttempt(text);
    assert forall q :: 0 <= q < p ==> attempt(q) == MatchAt(text, q);
    LeftmostDecides(attempt, 0, |text|, p);
  }

  /** The whitespace run is maximal: all of it is whitespace and what follows is not. */
  lemma {:induction false} WhiteSpaceRunMaximal(text: string, q: nat)
    requires q <= |text|
    ensures forall k :: q <= k < q + WhiteSpaceRun(text, q) ==> IsWhiteSpace(text[k])
    ensures q + WhiteSpaceRun(text, q) == |text| || !IsWhiteSpace(text[q + WhiteSpaceRun(text, q)])
    decreases |text| - q
  {
    if q < |text| && IsWhiteSpace(text[q]) {
      WhiteSpaceRunMaximal(text, q + 1);
    }
  }

  /** The line run is maximal: no line terminator in it, and one (or the end) right after it. */
  lemma {:induction false} LineRunMaximal(text: string, q: nat)
    requires q <= |text|
    ensures forall k :: q <= k < q + LineRun(text, q) ==> !IsLineTerminator(text[k])
    ensures q + LineRun(text, q) == |text| || IsLineTerminator(text[q + LineRun(text, q)])
    decreases |text| - q
  {
    if q < |text| && !IsLineTerminator(text[q]) {
      LineRunMaximal(text, q + 1);
    }
  }

  /** The backtracking point is the largest offset after which `.` can match, and there is none when it fails. */
  lemma {:induction false} DataOffsetGreatest(text: string, r: nat, top: nat)
    requires r <= |text|
    ensures DataOffset(text, r, top).Some? ==> !IsLineTerminator(text[r + DataOffset(text, r, top).value])
    ensures forall k :: r + DataOffset(text, r, top).GetOr(0) < k <= r + top && k < |text| ==> IsLineTerminator(text[k])
    decreases top
  {
    if top > 0 && !(r + top < |text| && !IsLineTerminator(text[r + top])) {
      DataOffsetGreatest(text, r, top - 1);
    }
  }

  /** A capture is never empty and never holds a line terminator: `(.+)` stays on one line. */
  lemma MatchAtCapture(text: string, p: nat)
    requires p <= |text| && MatchAt(text, p).Some?
    ensures MatchAt(text, p).value != []
    ensures forall k :: 0 <= k < |MatchAt(text, p).value| ==> !IsLineTerminator(MatchAt(text, p).value[k])
  {
    var q := p + 11;
    var k := WhiteSpaceRun(text, q);
    var r := q + k + 6;
    var w := WhiteSpaceRun(text, r);
    DataOffsetGreatest(text, r, w);
    var m := DataOffset(text, r, w).value;
    LineRunMaximal(text, r + m);
    var c := MatchAt(text, p).value;
    assert c == text[r + m .. r + m + LineRun(text, r + m)];
    forall i | 0 <= i < |c| ensures !IsLineTerminator(c[i]) {
      assert c[i] == text[r + m + i];
    }
  }

  /** The icon path the tool keeps: the capture trimmed, with every `"` deleted (index.js:41). */
  function IconPathOf(capture: string): (path: string)
    ensures '"' !in path
  {
    RemoveAll(Trim(capture), '"')
  }

  /** The steps of one match attempt put together: what `MatchAt` returns once each step is known. */
  lemma MatchAtSteps(text: string, p: nat, k: nat, w: nat, m: nat)
    requires p + 11 <= |text| && MatchesIgnoringCaseAt(text, p, "DisplayIcon")
    requires WhiteSpaceRun(text, p + 11) == k > 0
    requires MatchesIgnoringCaseAt(text, p + 11 + k, "REG_SZ")
    requires WhiteSpaceRun(text, p + 17 + k) == w > 0
    requires DataOffset(text, p + 17 + k, w) == Some(m)
    ensures MatchAt(text, p) == Some(text[p + 17 + k + m .. p + 17 + k + m + LineRun(text, p + 17 + k + m)])
  {
  }

  /** A word found verbatim also matches under the `i` flag. */
  lemma VerbatimMatch(text: string, p: nat, word: string)
    requires p + |word| <= |text| && text[p..p + |word|] == word
    ensures MatchesIgnoringCaseAt(text, p, word)
  {
    forall k | 0 <= k < |word| ensures UpperAscii(text[p + k]) == UpperAscii(word[k]) {
      assert text[p..p + |word|][k] == text[p + k];
    }
  }

  /** A whitespace block that ends where the whitespace ends is the whole run. */
  lemma WhiteSpaceRunIs(text: string, q: nat, n: nat)
    requires q + n <= |text|
    requires forall k :: q <= k < q + n ==> IsWhiteSpace(text[k])
    requires q + n == |text| || !IsWhiteSpace(text[q + n])
    ensures WhiteSpaceRun(text, q) == n
  {
    WhiteSpaceRunMaximal(text, q);
  }

  /** A block without line terminators that ends at one (or at the end) is the whole line run. */
  lemma LineRunIs(text: string, q: nat, n: nat)
    requires q + n <= |text|
    requires forall k :: q <= k < q + n ==> !IsLineTerminator(text[k])
    requires q + n == |text| || IsLineTerminator(text[q + n])
    ensures LineRun(text, q) == n
  {
    LineRunMaximal(text, q);
  }

  /** The backtracking point is unique: the largest offset after which `.` can match. */
  lemma {:induction false} DataOffsetIs(text: string, r: nat, top: nat, m: nat)
    requires 1 <= m <= top && r + m < |text| && !IsLineTerminator(text[r + m])
    requires forall k :: r + m < k <= r + top && k < |text| ==> IsLineTerminator(text[k])
    ensures DataOffset(text, r, top) == Some(m)
    decreases top
  {
    if top > m {
      DataOffsetIs(text, r, top - 1, m);
    }
  }

  /**
   * The text at `p` is a value line as `reg query /v` prints it: the name
   * `DisplayIcon` (in any letter case), `k` blanks, the type `REG_SZ`, `w`
   * blanks, then `n` characters of data that start with a non-blank and run
   * to the end of the line.
   */
  predicate ValueLineAt(text: string, p: nat, k: nat, w: nat, n: nat) {
    var r := p + 11 + k + 6;
    var d := r + w;
    && d + n <= |text|
    && MatchesIgnoringCaseAt(text, p, "DisplayIcon")
    && k > 0 && (forall i :: p + 11 <= i < p + 11 + k ==> IsWhiteSpace(text[i]))
    && MatchesIgnoringCaseAt(text, p + 11 + k, "REG_SZ")
    && w > 0 && (forall i :: r <= i < d ==> IsWhiteSpace(text[i]))
    && n > 0 && !IsWhiteSpace(text[d])
    && (forall i :: d <= i < d + n ==> !IsLineTerminator(text[i]))
    && (d + n == |text| || IsLineTerminator(text[d + n]))
  }

  /** A value line is matched with its whole data as capture. */
  lemma ValueLineMatch(text: string, p: nat, k: nat, w: nat, n: nat)
    requires ValueLineAt(text, p, k, w, n)
    ensures MatchAt(text, p) == Some(text[p + 17 + k + w .. p + 17 + k + w + n])
  {
    var r := p + 17 + k;
    var d := r + w;
    TypeTagStartsWithLetter(text, p + 11 + k);
    WhiteSpaceRunIs(text, p + 11, k);
    WhiteSpaceRunIs(text, r, w);
    DataOffsetIs(text, r, w, w);
    LineRunIs(text, d, n);
    MatchAtSteps(text, p, k, w, w);
  }

  /**
   * The value line `reg query /v DisplayIcon` prints for a present value
   * gives back its data when the value name does not occur earlier in the
   * output (the header lines hold only the key path).
   */
  lemma IconOfValueListing(text: string, p: nat, k: nat, w: nat, n: nat)
    requires ValueLineAt(text, p, k, w, n)
    requires forall q :: 0 <= q < p ==> !MatchesIgnoringCaseAt(text, q, "DisplayIcon")
    ensures FindIconMatch(text) == Some(text[p + 17 + k + w .. p + 17 + k + w + n])
  {
    ValueLineMatch(text, p, k, w, n);
    FirstMatchDecides(text, p);
  }

  /**
   * An empty `DisplayIcon` value at the end of the output still matches:
   * `\s+` runs over the line ends and gives characters back until `(.+)` can
   * take the last blank before them, so the capture is that one blank and
   * the icon path comes out empty rather than the root being skipped.
   */
  lemma EmptyValueMatchesLastBlank(text: string, p: nat, k: nat, b: nat)
    requires p + 17 + k + b <= |text|
    requires MatchesIgnoringCaseAt(text, p, "DisplayIcon")
    requires k > 0 && forall i :: p + 11 <= i < p + 11 + k ==> IsWhiteSpace(text[i])
    requires MatchesIgnoringCaseAt(text, p + 11 + k, "REG_SZ")
    requires b >= 2 && forall i :: p + 17 + k <= i < p + 17 + k + b ==> IsWhiteSpace(text[i]) && !IsLineTerminator(text[i])
    requires forall i :: p + 17 + k + b <= i < |text| ==> IsLineTerminator(text[i])
    ensures MatchAt(text, p) == Some([text[p + 17 + k + b - 1]])
    ensures IconPathOf(MatchAt(text, p).value) == ""
  {
    var r := p + 17 + k;
    var m := b - 1;
    TypeTagStartsWithLetter(text, p + 11 + k);
    WhiteSpaceRunIs(text, p + 11, k);
    WhiteSpaceRunIs(text, r, |text| - r);
    DataOffsetIs(text, r, |text| - r, m);
    LineRunIs(text, r + m, 1);
    MatchAtSteps(text, p, k, |text| - r, m);
    assert text[r + m .. r + m + 1] == [text[r + m]];
    TrimOfBlank([text[r + m]]);
  }

  /** `REG_SZ` starts with a letter, so the blanks before it end where it starts. */
  lemma TypeTagStartsWithLetter(text: string, q: nat)
    requires MatchesIgnoringCaseAt(text, q, "REG_SZ")
    ensures !IsWhiteSpace(text[q])
  {
    assert UpperAscii(text[q + 0]) == UpperAscii("REG_SZ"[0]);
  }

  /** A quoted path comes back without its quotes (index.js:41). */
  lemma QuotedPathUnquoted(path: string)
    requires '"' !in path
    ensures IconPathOf("\"" + path + "\"") == path
  {
    var s := "\"" + path + "\"";
    TrimOfTrimmed(s);
    RemoveAllAppend("\"" + path, "\"", '"');
    RemoveAllAppend("\"", path, '"');
    RemoveAllAbsent(path, '"');
  }
}
