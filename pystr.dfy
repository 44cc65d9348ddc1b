/**
 Models of the few Python `str` operations the logger relies on: `isspace`,
 `strip`, `find`, `split(sep)`, slicing `s[-n:]` and the way
 `readlines()` cuts a text into lines.
 */
module PyStr {

  /** Python's `str.isspace()` on one character. */
  predicate IsSpace(c: char) {
    || c == ' '
    || ('\t' <= c <= '\r')
    || ('\U{1C}' <= c <= '\U{1F}')
    || c == '\U{85}' || c == '\U{A0}' || c == '\U{1680}'
    || ('\U{2000}' <= c <= '\U{200A}')
    || c == '\U{2028}' || c == '\U{2029}' || c == '\U{202F}' || c == '\U{205F}' || c == '\U{3000}'
  }

  /** `s` ends with `suffix`. */
  predicate EndsWith(s: string, suffix: string) {
    |suffix| <= |s| && s[|s| - |suffix|..] == suffix
  }

  /** Removes trailing whitespace (`str.rstrip()`). */
  function TrimEnd(s: string): (r: string)
    ensures |r| <= |s| && r == s[..|r|]
    ensures r == [] || !IsSpace(r[|r| - 1])
    decreases |s|
  {
    if |s| > 0 && IsSpace(s[|s| - 1]) then TrimEnd(s[..|s| - 1]) else s
  }

  /** `str.strip()`: whitespace removed at both ends, one character at a time. */
  function Strip(s: string): (r: string)
    ensures |r| <= |s|
    ensures r == [] || (!IsSpace(r[0]) && !IsSpace(r[|r| - 1]))
    decreases |s|
  {
    if |s| > 0 && IsSpace(s[0]) then Strip(s[1..])
    else if |s| > 0 && IsSpace(s[|s| - 1]) then Strip(s[..|s| - 1])
    else s
  }

  /** `r` sits at index `i` of `s` with nothing but whitespace before and after it. */
  predicate PaddedAt(s: string, r: string, i: int) {
    && 0 <= i <= |s| - |r| && r == s[i..i + |r|]
    && (forall k :: 0 <= k < i ==> IsSpace(s[k]))
    && (forall k :: i + |r| <= k < |s| ==> IsSpace(s[k]))
  }

  /** What `strip` keeps is a factor of `s` with only whitespace around it. */
  lemma {:induction false} StripKeepsFactor(s: string)
    ensures exists i :: PaddedAt(s, Strip(s), i)
    decreases |s|
  {
    var r := Strip(s);
    if |s| > 0 && IsSpace(s[0]) {
      var t := s[1..];
      StripKeepsFactor(t);
      var i :| PaddedAt(t, r, i);
      assert r == s[i + 1..i + 1 + |r|];
      forall k | 0 <= k < i + 1 ensures IsSpace(s[k]) {
        if k > 0 { assert s[k] == t[k - 1]; }
      }
      forall k | i + 1 + |r| <= k < |s| ensures IsSpace(s[k]) {
        assert s[k] == t[k - 1];
      }
      assert PaddedAt(s, r, i + 1);
    } else {
      StripKeepsPrefix(s);
      assert PaddedAt(s, r, 0);
    }
  }

  /** Without leading whitespace, `strip` only cuts trailing whitespace. */
  lemma {:induction false} StripKeepsPrefix(s: string)
    requires s == [] || !IsSpace(s[0])
    ensures Strip(s) == s[..|Strip(s)|]
    ensures forall k :: |Strip(s)| <= k < |s| ==> IsSpace(s[k])
    decreases |s|
  {
    if |s| > 0 && IsSpace(s[|s| - 1]) {
      var t := s[..|s| - 1];
      if |t| > 0 {
        assert t[0] == s[0];
      }
      StripKeepsPrefix(t);
      forall k | |Strip(s)| <= k < |s| ensures IsSpace(s[k]) {
        if k < |t| { assert s[k] == t[k]; }
      }
    }
  }

  /** `rstrip()` cuts off nothing but whitespace. */
  lemma {:induction false} TrimEndCutsSpaces(s: string)
    ensures forall k :: |TrimEnd(s)| <= k < |s| ==> IsSpace(s[k])
    decreases |s|
  {
    if |s| > 0 && IsSpace(s[|s| - 1]) {
      var t := s[..|s| - 1];
      TrimEndCutsSpaces(t);
      forall k | |TrimEnd(s)| <= k < |s| ensures IsSpace(s[k]) {
        if k < |t| { assert s[k] == t[k]; }
      }
    }
  }

  /** The whitespace `float()` skips around a numeral written in ASCII: space, `\t`, `\n`,
      `\v`, `\f` and `\r`. A proper part of what `str.isspace()` accepts. */
  predicate IsAsciiSpace(c: char) {
    c == ' ' || ('\t' <= c <= '\r')
  }

  /** The strip `float()` applies to an ASCII text: ASCII whitespace removed at both ends. */
  function StripAscii(s: string): (r: string)
    ensures |r| <= |s|
    ensures r == [] || (!IsAsciiSpace(r[0]) && !IsAsciiSpace(r[|r| - 1]))
    decreases |s|
  {
    if |s| > 0 && IsAsciiSpace(s[0]) then StripAscii(s[1..])
    else if |s| > 0 && IsAsciiSpace(s[|s| - 1]) then StripAscii(s[..|s| - 1])
    else s
  }

  /** A line's newline is stripped, and ends that are not ASCII whitespace are kept. */
  lemma StripAsciiLine(p: string)
    requires |p| > 0 && !IsAsciiSpace(p[0]) && !IsAsciiSpace(p[|p| - 1])
    ensures StripAscii(p + "\n") == p
  {
    var s := p + "\n";
    assert s[0] == p[0];
    assert s[..|s| - 1] == p;
  }

  /** Both strips agree on text each of whose characters is either whitespace to both
      or whitespace to neither: no character of it is whitespace other than space and
      `\t`-`\r`, wherever it stands. */
  lemma {:induction false} StripAsciiAgrees(s: string)
    requires forall k :: 0 <= k < |s| ==> (IsSpace(s[k]) <==> IsAsciiSpace(s[k]))
    ensures StripAscii(s) == Strip(s)
    decreases |s|
  {
    if |s| > 0 && IsSpace(s[0]) {
      StripAsciiAgrees(s[1..]);
    } else if |s| > 0 && IsSpace(s[|s| - 1]) {
      StripAsciiAgrees(s[..|s| - 1]);
    }
  }

  /** `r` sits at index `i` of `s` with nothing but ASCII whitespace before and after it. */
  predicate AsciiPaddedAt(s: string, r: string, i: int) {
    && 0 <= i <= |s| - |r| && r == s[i..i + |r|]
    && (forall k :: 0 <= k < i ==> IsAsciiSpace(s[k]))
    && (forall k :: i + |r| <= k < |s| ==> IsAsciiSpace(s[k]))
  }

  /** What the ASCII strip keeps is a factor of `s` with only ASCII whitespace around it,
      so any other character, whitespace to `str.isspace()` or not, stays where it is. */
  lemma {:induction false} StripAsciiKeepsFactor(s: string)
    ensures exists i :: AsciiPaddedAt(s, StripAscii(s), i)
    decreases |s|
  {
    var r := StripAscii(s);
    if |s| > 0 && IsAsciiSpace(s[0]) {
      var t := s[1..];
      StripAsciiKeepsFactor(t);
      var i :| AsciiPaddedAt(t, r, i);
      assert r == s[i + 1..i + 1 + |r|];
      forall k | 0 <= k < i + 1 ensures IsAsciiSpace(s[k]) {
        if k > 0 { assert s[k] == t[k - 1]; }
      }
      forall k | i + 1 + |r| <= k < |s| ensures IsAsciiSpace(s[k]) {
        assert s[k] == t[k - 1];
      }
      assert AsciiPaddedAt(s, r, i + 1);
    } else {
      StripAsciiKeepsPrefix(s);
      assert AsciiPaddedAt(s, r, 0);
    }
  }

  /** Without leading ASCII whitespace, the ASCII strip only cuts trailing ASCII whitespace. */
  lemma {:induction false} StripAsciiKeepsPrefix(s: string)
    requires s == [] || !IsAsciiSpace(s[0])
    ensures StripAscii(s) == s[..|StripAscii(s)|]
    ensures forall k :: |StripAscii(s)| <= k < |s| ==> IsAsciiSpace(s[k])
    decreases |s|
  {
    if |s| > 0 && IsAsciiSpace(s[|s| - 1]) {
      var t := s[..|s| - 1];
      if |t| > 0 {
        assert t[0] == s[0];
      }
      StripAsciiKeepsPrefix(t);
      forall k | |StripAscii(s)| <= k < |s| ensures IsAsciiSpace(s[k]) {
        if k < |t| { assert s[k] == t[k]; }
      }
    }
  }

  /** A text that starts and ends with a non-space character is kept whole by `strip`,
      and appending anything to it only loses the trailing whitespace of what was appended. */
  lemma {:induction false} StripAppend(p: string, q: string)
    requires |p| > 0 && !IsSpace(p[0]) && !IsSpace(p[|p| - 1])
    ensures Strip(p + q) == p + TrimEnd(q)
    decreases |q|
  {
    var s := p + q;
    assert s[0] == p[0];
    if |q| == 0 {
      assert s == p;
    } else if IsSpace(q[|q| - 1]) {
      assert s[|s| - 1] == q[|q| - 1];
      assert s[..|s| - 1] == p + q[..|q| - 1];
      StripAppend(p, q[..|q| - 1]);
    } else {
      assert s[|s| - 1] == q[|q| - 1];
    }
  }

  /** A text without surrounding whitespace is its own `strip`. */
  lemma StripUnpadded(s: string)
    requires s == [] || (!IsSpace(s[0]) && !IsSpace(s[|s| - 1]))
    ensures Strip(s) == s
  {
  }

  /** Python's slice `s[-n:]`: the last `n` characters, or all of `s` when it is shorter.
      As `-0` is `0`, `s[-0:]` is all of `s`. */
  function LastChars(s: string, n: nat): (r: string)
    ensures |r| == if n == 0 || |s| < n then |s| else n
    ensures EndsWith(s, r)
  {
    if n > 0 && |s| >= n then s[|s| - n..] else s
  }

  /** Comparing `s[-n:]` with a text of length `n > 0` is exactly a suffix test. (With
      `n = 0` the slice is all of `s`, which equals `""` only when `s` is empty.) */
  lemma LastCharsIsSuffixTest(s: string, t: string)
    requires t != []
    ensures LastChars(s, |t|) == t <==> EndsWith(s, t)
  {
  }

  /** `pat` occurs in `s` at index `k`. */
  predicate OccursAt(s: string, pat: string, k: int) {
    0 <= k && k + |pat| <= |s| && s[k..k + |pat|] == pat
  }

  function FindFrom(s: string, pat: string, from: nat): (r: int)
    requires from <= |s|
    ensures r == -1 || (from <= r && OccursAt(s, pat, r))
    ensures forall k :: from <= k && (r == -1 || k < r) ==> !OccursAt(s, pat, k)
    decreases |s| - from
  {
    if from + |pat| > |s| then -1
    else if s[from..from + |pat|] == pat then from
    else FindFrom(s, pat, from + 1)
  }

  /** `str.find(pat)`: the index of the first occurrence of `pat` in `s`, or -1 when there is none. */
  function Find(s: string, pat: string): (r: int)
    ensures r == -1 || OccursAt(s, pat, r)
    ensures forall k :: 0 <= k && (r == -1 || k < r) ==> !OccursAt(s, pat, k)
  {
    FindFrom(s, pat, 0)
  }

  /** An occurrence inside a prefix is an occurrence in the whole text. */
  lemma OccursInPrefix(s: string, n: nat, pat: string, m: int)
    requires n <= |s| && OccursAt(s[..n], pat, m)
    ensures OccursAt(s, pat, m) && m + |pat| <= n
  {
    assert s[..n][m..m + |pat|] == s[m..m + |pat|];
  }

  /** An occurrence inside a suffix is an occurrence in the whole text. */
  lemma OccursInSuffix(s: string, n: nat, pat: string, m: int)
    requires n <= |s| && OccursAt(s[n..], pat, m)
    ensures OccursAt(s, pat, n + m)
  {
    assert s[n..][m..m + |pat|] == s[n + m..n + m + |pat|];
  }

  /** A one-character pattern occurs exactly where that character is. */
  lemma OccursAtChar(s: string, c: char, k: int)
    ensures OccursAt(s, [c], k) <==> 0 <= k < |s| && s[k] == c
  {
    if 0 <= k < |s| {
      assert s[k..k + 1] == [s[k]];
    }
  }

  /** The text is free of occurrences of `pat`. */
  predicate Lacks(s: string, pat: string) {
    forall k :: 0 <= k <= |s| ==> !OccursAt(s, pat, k)
  }

  lemma FindNoneIsLacks(s: string, pat: string)
    ensures Find(s, pat) == -1 <==> Lacks(s, pat)
  {
  }

  /** The pieces joined back with the separator (`sep.join(parts)`). */
  function Join(parts: seq<string>, sep: string): string
    decreases |parts|
  {
    if |parts| == 0 then ""
    else if |parts| == 1 then parts[0]
    else parts[0] + sep + Join(parts[1..], sep)
  }

  /** `s.split(sep)` for a non-empty separator and no limit on the number of splits. */
  function Split(s: string, sep: string): (parts: seq<string>)
    requires |sep| > 0
    ensures |parts| >= 1
    ensures Join(parts, sep) == s
    ensures forall i :: 0 <= i < |parts| ==> Lacks(parts[i], sep)
    decreases |s|
  {
    var k := Find(s, sep);
    if k == -1 then
      [s]
    else
      var head := s[..k];
      var rest := Split(s[k + |sep|..], sep);
      assert Lacks(head, sep) by {
        forall m | OccursAt(head, sep, m) ensures false {
          OccursInPrefix(s, k, sep, m);
        }
      }
      assert ([head] + rest)[1..] == rest;
      assert s == head + sep + s[k + |sep|..];
      [head] + rest
  }

  /** The first piece of a split is everything before the first separator. */
  lemma SplitFirst(s: string, sep: string)
    requires |sep| > 0
    ensures var k := Find(s, sep);
            Split(s, sep)[0] == if k == -1 then s else s[..k]
  {
  }

  /** A split yields at least two pieces exactly when the separator occurs. */
  lemma SplitMany(s: string, sep: string)
    requires |sep| > 0
    ensures |Split(s, sep)| >= 2 <==> Find(s, sep) != -1
    ensures Find(s, sep) != -1 ==>
              Split(s, sep)[1..] == Split(s[Find(s, sep) + |sep|..], sep)
  {
  }

  /** The lines concatenated back (`''.join(lines)`). */
  function Concat(lines: seq<string>): string
    decreases |lines|
  {
    if |lines| == 0 then "" else lines[0] + Concat(lines[1..])
  }

  /** What `readlines()` yields for one line: a non-empty text holding no newline
      except a final one, which every line but the last must have. */
  predicate IsLine(line: string, last: bool) {
    && |line| > 0
    && (forall k :: 0 <= k < |line| - 1 ==> line[k] != '\n')
    && (!last ==> line[|line| - 1] == '\n')
  }

  /** `readlines()` on a file whose content is `text`: cut after every newline. */
  function ReadLines(text: string): (lines: seq<string>)
    ensures Concat(lines) == text
    ensures forall i :: 0 <= i < |lines| ==> IsLine(lines[i], i == |lines| - 1)
    decreases |text|
  {
    if text == [] then []
    else
      var k := Find(text, "\n");
      if k == -1 then
        LastLine(text);
        [text]
      else
        FirstLine(text, k);
        var rest := ReadLines(text[k + 1..]);
        LinesCons(text[..k + 1], rest);
        [text[..k + 1]] + rest
  }

  /** A non-empty text without a newline is one last line. */
  lemma LastLine(text: string)
    requires text != [] && Find(text, "\n") == -1
    ensures IsLine(text, true)
  {
    forall j | 0 <= j < |text| ensures text[j] != '\n' {
      OccursAtChar(text, '\n', j);
    }
  }

  /** The text up to and including its first newline is a line. */
  lemma FirstLine(text: string, k: int)
    requires k != -1 && Find(text, "\n") == k
    ensures 0 <= k < |text| && IsLine(text[..k + 1], false)
    ensures text[..k + 1] + text[k + 1..] == text
  {
    OccursAtChar(text, '\n', k);
    forall j | 0 <= j < k ensures text[j] != '\n' {
      OccursAtChar(text, '\n', j);
    }
  }

  /** A line followed by lines. */
  lemma LinesCons(line: string, rest: seq<string>)
    requires IsLine(line, false)
    requires forall i :: 0 <= i < |rest| ==> IsLine(rest[i], i == |rest| - 1)
    ensures Concat([line] + rest) == line + Concat(rest)
    ensures forall i :: 0 <= i < |[line] + rest| ==> IsLine(([line] + rest)[i], i == |[line] + rest| - 1)
  {
    assert ([line] + rest)[1..] == rest;
    forall i | 0 < i < |[line] + rest|
      ensures IsLine(([line] + rest)[i], i == |[line] + rest| - 1)
    {
      assert ([line] + rest)[i] == rest[i - 1];
    }
  }
}
