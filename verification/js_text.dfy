/**
 * The JavaScript string primitives the tool relies on, with the ECMAScript
 * semantics it gets from them: `trim`, `startsWith`, `includes`,
 * `split('\r\n')`, `replace(/"/g, '')` and the ASCII case folding of a
 * regular expression with the `i` flag.
 */
module JsText {

  /** The two-character line separator of `reg.exe` output. */
  const CrLf: string := "\r\n"

  /** ECMAScript LineTerminator code points (what `.` in a regular expression does not match). */
  predicate IsLineTerminator(c: char) {
    c == '\n' || c == '\r' || c == '\U{2028}' || c == '\U{2029}'
  }

  /**
   * ECMAScript WhiteSpace and LineTerminator code points: the set that
   * `String.prototype.trim` removes, that `\s` matches and that `parseInt`
   * skips at the start.
   */
  predicate IsWhiteSpace(c: char) {
    c == '\t' || c == '\U{B}' || c == '\U{C}' || c == ' ' || c == '\U{A0}' || c == '\U{FEFF}'
    || c == '\U{1680}' || ('\U{2000}' <= c <= '\U{200A}') || c == '\U{202F}' || c == '\U{205F}'
    || c == '\U{3000}' || IsLineTerminator(c)
  }

  predicate AllWhiteSpace(s: string) {
    forall i :: 0 <= i < |s| ==> IsWhiteSpace(s[i])
  }

  /** `s.trimStart()`: drops the longest all-whitespace prefix (see `TrimStartSpec`). */
  function TrimStart(s: string): (r: string)
    ensures |r| <= |s|
    decreases |s|
  {
    if |s| > 0 && IsWhiteSpace(s[0]) then TrimStart(s[1..]) else s
  }

  /** `s.trimEnd()`: drops the longest all-whitespace suffix (see `TrimEndSpec`). */
  function TrimEnd(s: string): (r: string)
    ensures |r| <= |s|
    decreases |s|
  {
    if |s| > 0 && IsWhiteSpace(s[|s| - 1]) then TrimEnd(s[..|s| - 1]) else s
  }

  /** `s.trim()`: the slice of `s` between its leading and its trailing whitespace. */
  function Trim(s: string): (r: string)
  {
    TrimEnd(TrimStart(s))
  }

  /** What `trimStart` keeps is a suffix; what it drops is all whitespace, and it stops at a non-blank. */
  lemma {:induction false} TrimStartSpec(s: string)
    ensures var r := TrimStart(s);
            && r == s[|s| - |r|..]
            && AllWhiteSpace(s[..|s| - |r|])
            && (r == [] || !IsWhiteSpace(r[0]))
    decreases |s|
  {
    if |s| > 0 && IsWhiteSpace(s[0]) {
      TrimStartSpec(s[1..]);
      var r := TrimStart(s);
      assert s[..|s| - |r|] == [s[0]] + s[1..][..|s| - 1 - |r|];
    }
  }

  /** What `trimEnd` keeps is a prefix; what it drops is all whitespace, and it stops at a non-blank. */
  lemma {:induction false} TrimEndSpec(s: string)
    ensures var r := TrimEnd(s);
            && r == s[..|r|]
            && AllWhiteSpace(s[|r|..])
            && (r == [] || !IsWhiteSpace(r[|r| - 1]))
    decreases |s|
  {
    if |s| > 0 && IsWhiteSpace(s[|s| - 1]) {
      TrimEndSpec(s[..|s| - 1]);
      var r := TrimEnd(s);
      assert s[|r|..] == s[..|s| - 1][|r|..] + [s[|s| - 1]];
    }
  }

  /**
   * `trim` keeps a middle slice of `s`: all whitespace before and after it,
   * and the slice itself is empty or starts and ends with a non-blank.
   */
  lemma {:induction false} TrimSpec(s: string)
    ensures exists i, j :: 0 <= i <= j <= |s| && Trim(s) == s[i..j]
                           && AllWhiteSpace(s[..i]) && AllWhiteSpace(s[j..])
    ensures Trim(s) == [] || (!IsWhiteSpace(Trim(s)[0]) && !IsWhiteSpace(Trim(s)[|Trim(s)| - 1]))
  {
    var t := TrimStart(s);
    TrimStartSpec(s);
    TrimEndSpec(t);
    var r := TrimEnd(t);
    var i := |s| - |t|;
    var j := i + |r|;
    assert t == s[i..];
    assert r == t[..|r|] == s[i..j];
    assert s[j..] == t[|r|..];
    assert Trim(s) == s[i..j] && AllWhiteSpace(s[..i]) && AllWhiteSpace(s[j..]);
  }

  /** A string that starts and ends with a non-whitespace character is its own trim. */
  lemma TrimOfTrimmed(s: string)
    requires s != [] && !IsWhiteSpace(s[0]) && !IsWhiteSpace(s[|s| - 1])
    ensures Trim(s) == s
  {
  }

  /** A string of whitespace trims to nothing. */
  lemma {:induction false} TrimOfBlank(s: string)
    requires AllWhiteSpace(s)
    ensures Trim(s) == []
    decreases |s|
  {
    if s != [] {
      assert AllWhiteSpace(s[1..]) by {
        forall i | 0 <= i < |s[1..]| ensures IsWhiteSpace(s[1..][i]) {
          assert s[1..][i] == s[i + 1];
        }
      }
      TrimOfBlank(s[1..]);
    }
  }

  /** `s.startsWith(prefix)`. */
  predicate StartsWith(s: string, prefix: string) {
    |prefix| <= |s| && s[..|prefix|] == prefix
  }

  /** `t` occurs in `s` at position `i`. */
  predicate OccursAt(s: string, t: string, i: int) {
    0 <= i && i + |t| <= |s| && s[i..i + |t|] == t
  }

  /** `s.includes(t)`, scanning `s` from the left. */
  function Includes(s: string, t: string): (r: bool)
    ensures r <==> exists i :: OccursAt(s, t, i)
    decreases |s|
  {
    if |s| < |t| then false
    else if s[..|t|] == t then assert OccursAt(s, t, 0); true
    else
      var rest := Includes(s[1..], t);
      assert forall i :: OccursAt(s[1..], t, i) ==> OccursAt(s, t, i + 1);
      assert forall i :: 0 < i && OccursAt(s, t, i) ==> OccursAt(s[1..], t, i - 1);
      rest
  }

  /** Text placed anywhere inside a string is found by `includes`. */
  lemma IncludesInfix(a: string, t: string, b: string)
    ensures Includes(a + t + b, t)
  {
    assert OccursAt(a + t + b, t, |a|);
  }

  /** What is found in a part is found in the whole. */
  lemma IncludesWithin(a: string, m: string, b: string, t: string)
    requires Includes(m, t)
    ensures Includes(a + m + b, t)
  {
    var i :| OccursAt(m, t, i);
    assert (a + m + b)[|a| + i .. |a| + i + |t|] == m[i .. i + |t|];
    assert OccursAt(a + m + b, t, |a| + i);
  }

  /**
   * An occurrence cannot run over a character `t` does not hold, so when the
   * two parts meet at such a character, whatever is found in `a + b` is
   * found in `a` or in `b`.
   */
  lemma IncludesSplit(a: string, b: string, t: string)
    requires (a != [] && a[|a| - 1] !in t) || (b != [] && b[0] !in t)
    ensures Includes(a + b, t) ==> Includes(a, t) || Includes(b, t)
  {
    if Includes(a + b, t) {
      var i :| OccursAt(a + b, t, i);
      OccurrenceChars(a + b, t, i);
      if a != [] && a[|a| - 1] !in t {
        assert (a + b)[|a| - 1] == a[|a| - 1];
      } else {
        assert (a + b)[|a|] == b[0];
      }
      if i + |t| <= |a| {
        assert (a + b)[i .. i + |t|] == a[i .. i + |t|];
        assert OccursAt(a, t, i);
      } else {
        assert i >= |a|;
        assert (a + b)[i .. i + |t|] == b[i - |a| .. i - |a| + |t|];
        assert OccursAt(b, t, i - |a|);
      }
    }
  }

  /** Every character covered by an occurrence of `t` is a character of `t`. */
  lemma OccurrenceChars(s: string, t: string, i: int)
    requires OccursAt(s, t, i)
    ensures forall j :: i <= j < i + |t| ==> s[j] in t
  {
    forall j | i <= j < i + |t| ensures s[j] in t {
      assert s[j] == s[i .. i + |t|][j - i];
    }
  }

  /** Text that lacks a character of `t` does not include `t`. */
  lemma IncludesNeedsChar(s: string, t: string, k: nat)
    requires k < |t| && t[k] !in s
    ensures !Includes(s, t)
  {
    forall i | 0 <= i && i + |t| <= |s| ensures !OccursAt(s, t, i) {
      assert s[i .. i + |t|][k] == s[i + k];
    }
  }

  /** No line separator inside `s`. */
  predicate NoCrLf(s: string) {
    forall k :: 0 <= k < |s| - 1 ==> !(s[k] == '\r' && s[k + 1] == '\n')
  }

  /** The pieces of a split, glued back with the separator (`pieces.join('\r\n')`). */
  function JoinCrLf(pieces: seq<string>): string
    requires |pieces| >= 1
  {
    if |pieces| == 1 then pieces[0] else pieces[0] + CrLf + JoinCrLf(pieces[1..])
  }

  /**
   * `s.split('\r\n')`: the separator is found left to right without overlap,
   * so there is always at least one piece and an empty string gives `[""]`.
   */
  function SplitCrLf(s: string): (r: seq<string>)
    ensures |r| >= 1
    decreases |s|
  {
    if |s| < 2 then [s]
    else if s[0] == '\r' && s[1] == '\n' then [""] + SplitCrLf(s[2..])
    else
      var rest := SplitCrLf(s[1..]);
      [[s[0]] + rest[0]] + rest[1..]
  }

  /** No piece of a split holds the separator, and the first piece is where the text starts. */
  lemma {:induction false} SplitPiecesHaveNoCrLf(s: string)
    ensures StartsWith(s, SplitCrLf(s)[0])
    ensures forall i :: 0 <= i < |SplitCrLf(s)| ==> NoCrLf(SplitCrLf(s)[i])
    decreases |s|
  {
    if |s| < 2 {
    } else if s[0] == '\r' && s[1] == '\n' {
      SplitPiecesHaveNoCrLf(s[2..]);
      var r := SplitCrLf(s);
      assert forall i :: 1 <= i < |r| ==> r[i] == SplitCrLf(s[2..])[i - 1];
    } else {
      SplitPiecesHaveNoCrLf(s[1..]);
      var rest := SplitCrLf(s[1..]);
      var r := SplitCrLf(s);
      assert rest[0] == s[1..][..|rest[0]|];
      assert r[0] == [s[0]] + rest[0];
      assert forall i :: 1 <= i < |r| ==> r[i] == rest[i];
      assert NoCrLf(r[0]) by {
        forall k | 0 <= k < |r[0]| - 1 ensures !(r[0][k] == '\r' && r[0][k + 1] == '\n') {
          if k > 0 {
            assert r[0][k] == rest[0][k - 1] && r[0][k + 1] == rest[0][k];
          } else {
            assert r[0][1] == rest[0][0] == s[1];
          }
        }
      }
    }
  }

  /** Splitting loses nothing: joining the pieces with `\r\n` gives back the text. */
  lemma {:induction false} SplitJoin(s: string)
    ensures JoinCrLf(SplitCrLf(s)) == s
    decreases |s|
  {
    if |s| < 2 {
    } else if s[0] == '\r' && s[1] == '\n' {
      SplitJoin(s[2..]);
      assert s == CrLf + s[2..];
    } else {
      SplitJoin(s[1..]);
      JoinAfterChar(s[0], SplitCrLf(s[1..]));
      assert s == [s[0]] + s[1..];
    }
  }

  /** Gluing a character onto the first piece glues it onto the joined text. */
  lemma {:induction false} JoinAfterChar(c: char, pieces: seq<string>)
    requires |pieces| >= 1
    ensures JoinCrLf([[c] + pieces[0]] + pieces[1..]) == [c] + JoinCrLf(pieces)
  {
    var glued := [[c] + pieces[0]] + pieces[1..];
    assert glued[0] == [c] + pieces[0];
    if |pieces| > 1 {
      assert glued[1..] == pieces[1..];
      var tail := CrLf + JoinCrLf(pieces[1..]);
      assert JoinCrLf(glued) == ([c] + pieces[0]) + tail;
      assert JoinCrLf(pieces) == pieces[0] + tail;
      assert ([c] + pieces[0]) + tail == [c] + (pieces[0] + tail);
    }
  }

  /** Splitting text that has no separator gives that text alone. */
  lemma {:induction false} SplitWithoutSeparator(s: string)
    requires NoCrLf(s)
    ensures SplitCrLf(s) == [s]
    decreases |s|
  {
    if |s| >= 2 {
      assert !(s[0] == '\r' && s[1] == '\n');
      assert NoCrLf(s[1..]) by {
        forall k | 0 <= k < |s[1..]| - 1 ensures !(s[1..][k] == '\r' && s[1..][k + 1] == '\n') {
          assert s[1..][k] == s[k + 1] && s[1..][k + 1] == s[k + 2];
        }
      }
      SplitWithoutSeparator(s[1..]);
      assert [s[0]] + s[1..] == s;
    }
  }

  /** Splitting `line + "\r\n" + rest` where `line` has no separator gives `line` first. */
  lemma {:induction false} SplitFirstLine(line: string, rest: string)
    requires NoCrLf(line)
    ensures SplitCrLf(line + CrLf + rest) == [line] + SplitCrLf(rest)
    decreases |line|
  {
    var s := line + CrLf + rest;
    if line == [] {
      assert s == CrLf + rest;
      assert s[2..] == rest;
    } else {
      assert s[1..] == line[1..] + CrLf + rest;
      SplitFirstLine(line[1..], rest);
      if |line| == 1 {
        assert s[0] == line[0] && s[1] == '\r';
      } else {
        assert s[1] == line[1];
        assert !(line[0] == '\r' && line[1] == '\n');
      }
      assert [line[0]] + line[1..] == line;
    }
  }

  /** `s.replace(/c/g, '')`: every occurrence of `c` deleted, the rest kept in order. */
  function RemoveAll(s: string, c: char): (r: string)
    ensures c !in r
    ensures |r| <= |s|
    decreases |s|
  {
    if s == [] then []
    else if s[0] == c then RemoveAll(s[1..], c)
    else [s[0]] + RemoveAll(s[1..], c)
  }

  /** Deleting a character distributes over concatenation, so it keeps everything else in order. */
  lemma {:induction false} RemoveAllAppend(a: string, b: string, c: char)
    ensures RemoveAll(a + b, c) == RemoveAll(a, c) + RemoveAll(b, c)
    decreases |a|
  {
    if a == [] {
      assert a + b == b;
    } else {
      assert (a + b)[1..] == a[1..] + b;
      RemoveAllAppend(a[1..], b, c);
    }
  }

  /** Deleting a character that does not occur changes nothing. */
  lemma {:induction false} RemoveAllAbsent(s: string, c: char)
    requires c !in s
    ensures RemoveAll(s, c) == s
    decreases |s|
  {
    if s != [] {
      RemoveAllAbsent(s[1..], c);
    }
  }

  /** The upper-case form the `i` flag compares by; only ASCII letters change. */
  function UpperAscii(c: char): char {
    if 'a' <= c <= 'z' then (c as int - 32) as char else c
  }

  /**
   * `word` matches `text` at position `p` under the `i` flag. The words
   * matched this way are ASCII, and ECMAScript case folding never maps a
   * non-ASCII character onto an ASCII one, so ASCII folding is exact here.
   */
  predicate MatchesIgnoringCaseAt(text: string, p: nat, word: string) {
    p + |word| <= |text| && forall k :: 0 <= k < |word| ==> UpperAscii(text[p + k]) == UpperAscii(word[k])
  }
}
