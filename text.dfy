/**
 * The string primitives the engine relies on: whitespace stripping, lower-casing,
 * whitespace word splitting, substring search, splitting on a separator, squashing
 * whitespace runs and splitting markup into lines. Whitespace is Python's ASCII whitespace.
 */
module Text {
  import opened Geometry

  /** Python's ASCII whitespace: space, tab, line feed, vertical tab, form feed, carriage return
      (U+0009 to U+000D) and the four information separators U+001C to U+001F. */
  predicate IsSpace(c: char)
  {
    c == ' ' || ('\t' <= c <= '\r') || ('\U{001C}' <= c <= '\U{001F}')
  }

  predicate IsAsciiLetter(c: char) { ('A' <= c <= 'Z') || ('a' <= c <= 'z') }
  predicate IsAsciiDigit(c: char) { '0' <= c <= '9' }

  /** Drops leading whitespace (LStripSpec says what is dropped). */
  function LStrip(s: string): (r: string)
    ensures |r| <= |s|
    decreases |s|
  {
    if s != [] && IsSpace(s[0]) then LStrip(s[1..]) else s
  }

  /** LStrip returns the suffix of `s` after its maximal whitespace prefix. */
  lemma {:induction false} LStripSpec(s: string)
    ensures LStrip(s) == s[|s| - |LStrip(s)|..]
    ensures LStrip(s) == [] || !IsSpace(LStrip(s)[0])
    ensures forall i :: 0 <= i < |s| - |LStrip(s)| ==> IsSpace(s[i])
    decreases |s|
  {
    if s != [] && IsSpace(s[0]) {
      LStripSpec(s[1..]);
    }
  }

  /** Drops trailing whitespace (RStripSpec says what is dropped). */
  function RStrip(s: string): (r: string)
    ensures |r| <= |s|
    decreases |s|
  {
    if s != [] && IsSpace(s[|s| - 1]) then RStrip(s[..|s| - 1]) else s
  }

  /** RStrip returns the prefix of `s` before its maximal whitespace suffix. */
  lemma {:induction false} RStripSpec(s: string)
    ensures RStrip(s) == s[..|RStrip(s)|]
    ensures RStrip(s) == [] || !IsSpace(RStrip(s)[|RStrip(s)| - 1])
    ensures forall i :: |RStrip(s)| <= i < |s| ==> IsSpace(s[i])
    decreases |s|
  {
    if s != [] && IsSpace(s[|s| - 1]) {
      RStripSpec(s[..|s| - 1]);
    }
  }

  function Strip(s: string): string
  {
    RStrip(LStrip(s))
  }

  /** A string that ends in a non-space character keeps that character last after Strip. */
  lemma StripKeepsLastChar(s: string)
    requires s != [] && !IsSpace(s[|s| - 1])
    ensures Strip(s) != [] && Strip(s)[|Strip(s)| - 1] == s[|s| - 1]
    ensures |Strip(s)| <= |s| && Strip(s) == s[|s| - |Strip(s)|..]
  {
    var t := LStrip(s);
    LStripSpec(s);
    assert t != [];
    assert t[|t| - 1] == s[|s| - 1];
    RStripSpec(t);
  }

  /** A stripped string neither starts nor ends with whitespace. */
  lemma StripEnds(s: string)
    ensures Strip(s) == [] || (!IsSpace(Strip(s)[0]) && !IsSpace(Strip(s)[|Strip(s)| - 1]))
  {
    var t := LStrip(s);
    LStripSpec(s);
    RStripSpec(t);
    if Strip(s) != [] {
      assert Strip(s)[0] == t[0];
    }
  }

  /** Leading whitespace before a string that starts with a non-space is dropped. */
  lemma {:induction false} LStripSpaces(pre: string, t: string)
    requires forall i :: 0 <= i < |pre| ==> IsSpace(pre[i])
    requires t == [] || !IsSpace(t[0])
    ensures LStrip(pre + t) == t
    decreases |pre|
  {
    if pre == [] {
      assert pre + t == t;
    } else {
      assert (pre + t)[1..] == pre[1..] + t;
      LStripSpaces(pre[1..], t);
    }
  }

  /** Trailing whitespace after a string that ends with a non-space is dropped. */
  lemma {:induction false} RStripSpaces(t: string, post: string)
    requires forall i :: 0 <= i < |post| ==> IsSpace(post[i])
    requires t == [] || !IsSpace(t[|t| - 1])
    ensures RStrip(t + post) == t
    decreases |post|
  {
    if post == [] {
      assert t + post == t;
    } else {
      assert (t + post)[..|t + post| - 1] == t + post[..|post| - 1];
      RStripSpaces(t, post[..|post| - 1]);
    }
  }

  /** A word padded with whitespace strips back to the word. */
  lemma StripPadded(pre: string, w: string, post: string)
    requires forall i :: 0 <= i < |pre| ==> IsSpace(pre[i])
    requires forall i :: 0 <= i < |post| ==> IsSpace(post[i])
    requires w != [] && !IsSpace(w[0]) && !IsSpace(w[|w| - 1])
    ensures Strip(pre + w + post) == w
  {
    assert pre + w + post == pre + (w + post);
    LStripSpaces(pre, w + post);
    RStripSpaces(w, post);
  }

  /** Squashing changes nothing in a string without whitespace. */
  lemma {:induction false} SquashNoSpace(s: string)
    requires forall i :: 0 <= i < |s| ==> !IsSpace(s[i])
    ensures SquashRuns(s) == s
    decreases |s|
  {
    if s != [] {
      SquashNoSpace(s[1..]);
    }
  }

  /** Removes every trailing character that belongs to `chars` (Python's rstrip(chars)). */
  function RStripChars(s: string, chars: set<char>): (r: string)
    ensures |r| <= |s| && r == s[..|r|]
    ensures r == [] || r[|r| - 1] !in chars
    decreases |s|
  {
    if s != [] && s[|s| - 1] in chars then RStripChars(s[..|s| - 1], chars) else s
  }

  function LowerChar(c: char): char
  {
    if 'A' <= c <= 'Z' then (c as int + 32) as char else c
  }

  function Lower(s: string): (r: string)
    ensures |r| == |s|
  {
    seq(|s|, i requires 0 <= i < |s| => LowerChar(s[i]))
  }

  /** Number of leading non-space characters. */
  function WordLength(s: string): (n: nat)
    ensures n <= |s|
    ensures forall i :: 0 <= i < n ==> !IsSpace(s[i])
    ensures n < |s| ==> IsSpace(s[n])
    decreases |s|
  {
    if s == [] || IsSpace(s[0]) then 0 else 1 + WordLength(s[1..])
  }

  /** Python's split() without a separator: the maximal runs of non-space characters. */
  function Words(s: string): (ws: seq<string>)
    ensures forall k :: 0 <= k < |ws| ==> ws[k] != [] && forall i :: 0 <= i < |ws[k]| ==> !IsSpace(ws[k][i])
    decreases |s|
  {
    var t := LStrip(s);
    if t == [] then []
    else
      LStripSpec(s);
      var n := WordLength(t);
      assert n > 0;
      assert forall i :: 0 <= i < |t[..n]| ==> !IsSpace(t[..n][i]);
      [t[..n]] + Words(t[n..])
  }

  /** Words only depend on what follows leading whitespace. */
  lemma WordsAfterSpace(rest: string)
    ensures Words([' '] + rest) == Words(rest)
  {
    assert ([' '] + rest)[1..] == rest;
    assert LStrip([' '] + rest) == LStrip(rest);
  }

  /** A non-empty run without whitespace is a single word. */
  lemma WordsOfWord(w: string)
    requires w != [] && forall i :: 0 <= i < |w| ==> !IsSpace(w[i])
    ensures Words(w) == [w]
  {
    LStripSpaces([], w);
    assert [] + w == w;
    assert WordLength(w) == |w|;
    assert w[..|w|] == w;
  }

  /** A word followed by one space and more text splits off as the first word. */
  lemma WordsCons(w: string, rest: string)
    requires w != [] && forall i :: 0 <= i < |w| ==> !IsSpace(w[i])
    ensures Words(w + [' '] + rest) == [w] + Words(rest)
  {
    var tail := [' '] + rest;
    var s := w + tail;
    assert w + [' '] + rest == s;
    LStripSpaces([], s);
    assert [] + s == s;
    assert s[|w|] == ' ';
    assert forall i :: 0 <= i < |w| ==> s[i] == w[i];
    assert WordLength(s) == |w|;
    assert s[..|w|] == w;
    assert s[|w|..] == tail;
    WordsAfterSpace(rest);
  }

  /** `sub` occurs in `s` starting at index `i`. */
  predicate OccursAt(s: string, sub: string, i: nat)
  {
    i + |sub| <= |s| && s[i..i + |sub|] == sub
  }

  /** `sub` occurs in `s` (Python's `sub in s`; the empty string occurs everywhere). */
  predicate ContainsSub(s: string, sub: string)
  {
    exists i: nat | i <= |s| :: OccursAt(s, sub, i)
  }

  /** Every character of an occurring string is a character of the host string. */
  lemma ContainsNeedsChar(s: string, sub: string, j: nat)
    requires ContainsSub(s, sub) && j < |sub|
    ensures sub[j] in s
  {
    var i: nat :| i <= |s| && OccursAt(s, sub, i);
    assert s[i + j] == sub[j];
  }

  /** The first occurrence of a non-empty `sep` in `s` at or after `from`. */
  function FindFrom(s: string, sep: string, from: nat): (r: Option<nat>)
    requires |sep| > 0 && from <= |s|
    ensures r.Some? ==> from <= r.value && OccursAt(s, sep, r.value)
    ensures r.Some? ==> forall i: nat :: from <= i < r.value ==> !OccursAt(s, sep, i)
    ensures r.None? ==> forall i: nat :: from <= i ==> !OccursAt(s, sep, i)
    decreases |s| - from
  {
    if from + |sep| > |s| then None
    else if s[from..from + |sep|] == sep then Some(from)
    else FindFrom(s, sep, from + 1)
  }

  /** Searching for a one-character separator finds its first occurrence. */
  lemma {:induction false} FindFromChar(s: string, c: char, from: nat, i: nat)
    requires from <= i < |s| && s[i] == c
    requires forall j :: from <= j < i ==> s[j] != c
    ensures FindFrom(s, [c], from) == Some(i)
    decreases i - from
  {
    if from < i {
      assert s[from..from + 1] != [c] by { assert s[from..from + 1][0] == s[from]; }
      FindFromChar(s, c, from + 1, i);
    } else {
      assert s[from..from + 1] == [c];
    }
  }

  /** Searching for a one-character separator that no longer occurs finds nothing. */
  lemma {:induction false} FindFromCharNone(s: string, c: char, from: nat)
    requires from <= |s|
    requires forall j :: from <= j < |s| ==> s[j] != c
    ensures FindFrom(s, [c], from) == None
    decreases |s| - from
  {
    if from < |s| {
      assert s[from..from + 1] != [c] by { assert s[from..from + 1][0] == s[from]; }
      FindFromCharNone(s, c, from + 1);
    }
  }

  /** Searching from the start finds `sep` exactly when `sep` occurs in `s`. */
  lemma FindIffContains(s: string, sep: string)
    requires |sep| > 0
    ensures FindFrom(s, sep, 0).Some? <==> ContainsSub(s, sep)
  {
    var r := FindFrom(s, sep, 0);
    if r.Some? {
      assert OccursAt(s, sep, r.value);
    }
  }

  /** Python's s.split(sep) for a non-empty separator: cut at every leftmost non-overlapping occurrence. */
  function SplitOn(s: string, sep: string): (parts: seq<string>)
    requires |sep| > 0
    ensures |parts| >= 1
    decreases |s|
  {
    match FindFrom(s, sep, 0)
    case None => [s]
    case Some(i) => [s[..i]] + SplitOn(s[i + |sep|..], sep)
  }

  /** The pieces of a split, glued back with the separator, give the original string. */
  function Join(parts: seq<string>, sep: string): string
    requires |parts| >= 1
  {
    if |parts| == 1 then parts[0] else parts[0] + sep + Join(parts[1..], sep)
  }

  lemma {:induction false} SplitOnJoin(s: string, sep: string)
    requires |sep| > 0
    ensures Join(SplitOn(s, sep), sep) == s
    decreases |s|
  {
    var f := FindFrom(s, sep, 0);
    if f.None? {
      assert SplitOn(s, sep) == [s];
    } else {
      var i := f.value;
      var rest := s[i + |sep|..];
      assert SplitOn(s, sep) == [s[..i]] + SplitOn(rest, sep);
      SplitOnJoin(rest, sep);
      JoinCons(s[..i], SplitOn(rest, sep), sep);
      SplitAround(s, sep, i);
    }
  }

  /** A text is what precedes an occurrence, the occurrence, and what follows it. */
  lemma SplitAround(s: string, sep: string, i: nat)
    requires OccursAt(s, sep, i)
    ensures s == s[..i] + sep + s[i + |sep|..]
  {
    assert s == s[..i] + s[i..i + |sep|] + s[i + |sep|..];
  }

  lemma JoinCons(head: string, tail: seq<string>, sep: string)
    requires |tail| >= 1
    ensures Join([head] + tail, sep) == head + sep + Join(tail, sep)
  {
    assert ([head] + tail)[1..] == tail;
  }

  /** No piece of a split still contains the separator. */
  lemma {:induction false} SplitOnPiecesFree(s: string, sep: string)
    requires |sep| > 0
    ensures forall k :: 0 <= k < |SplitOn(s, sep)| ==> !ContainsSub(SplitOn(s, sep)[k], sep)
    decreases |s|
  {
    var parts := SplitOn(s, sep);
    match FindFrom(s, sep, 0)
    case None =>
      FindIffContains(s, sep);
    case Some(i) =>
      var rest := s[i + |sep|..];
      SplitOnPiecesFree(rest, sep);
      assert parts == [s[..i]] + SplitOn(rest, sep);
      NoOccurrenceBeforeFirst(s, sep, i);
      forall k | 0 <= k < |parts| ensures !ContainsSub(parts[k], sep) {
        if k > 0 {
          assert parts[k] == SplitOn(rest, sep)[k - 1];
        }
      }
  }

  /** The text before the first occurrence of `sep` does not contain `sep`. */
  lemma NoOccurrenceBeforeFirst(s: string, sep: string, i: nat)
    requires |sep| > 0 && FindFrom(s, sep, 0) == Some(i)
    ensures !ContainsSub(s[..i], sep)
  {
    if ContainsSub(s[..i], sep) {
      var j: nat :| j <= i && OccursAt(s[..i], sep, j);
      assert s[..i][j..j + |sep|] == s[j..j + |sep|];
      assert OccursAt(s, sep, j);
      assert false;
    }
  }

  /** re.sub(r'\s+', ' ', s): every maximal whitespace run becomes one space. */
  function SquashRuns(s: string): (r: string)
    ensures |r| <= |s|
    ensures forall i :: 0 <= i < |r| ==> IsSpace(r[i]) ==> r[i] == ' '
    decreases |s|
  {
    if s == [] then []
    else if IsSpace(s[0]) then
      var t := LStrip(s);
      assert |t| < |s|;
      [' '] + SquashRuns(t)
    else [s[0]] + SquashRuns(s[1..])
  }

  /** An occurrence inside a slice is an occurrence in the whole string, shifted by the slice start. */
  lemma OccursInSlice(s: string, a: nat, b: nat, sub: string, i: nat)
    requires a <= b <= |s| && OccursAt(s[a..b], sub, i)
    ensures OccursAt(s, sub, a + i)
  {
    forall x | 0 <= x < |sub| ensures s[a + i + x] == sub[x] {
      assert s[a..b][i..i + |sub|][x] == sub[x];
    }
    assert s[a + i..a + i + |sub|] == sub;
  }

  lemma ContainsInSlice(s: string, a: nat, b: nat, sub: string)
    requires a <= b <= |s| && ContainsSub(s[a..b], sub)
    ensures ContainsSub(s, sub)
  {
    var i: nat :| i <= |s[a..b]| && OccursAt(s[a..b], sub, i);
    OccursInSlice(s, a, b, sub, i);
  }

  /** Strip(s) is the slice of `s` between its leading and its trailing whitespace. */
  lemma StripIsSlice(s: string)
    ensures var a := |s| - |LStrip(s)|;
      a + |Strip(s)| <= |s| && Strip(s) == s[a..a + |Strip(s)|]
  {
    LStripSpec(s);
    RStripSpec(LStrip(s));
  }

  predicate NoSpace(s: string)
  {
    forall i :: 0 <= i < |s| ==> !IsSpace(s[i])
  }

  /** A whitespace-free prefix of the squashed string is a prefix of the original. */
  lemma {:induction false} SquashPrefix(u: string, p: string)
    requires NoSpace(p) && |p| <= |SquashRuns(u)| && SquashRuns(u)[..|p|] == p
    ensures |p| <= |u| && u[..|p|] == p
    decreases |p|
  {
    if p != [] {
      var q := SquashRuns(u);
      assert q[0] == p[0];
      if IsSpace(u[0]) {
        assert false;
      }
      assert q == [u[0]] + SquashRuns(u[1..]);
      assert SquashRuns(u[1..])[..|p| - 1] == q[1..|p|] == p[1..];
      assert NoSpace(p[1..]) by {
        forall i | 0 <= i < |p| - 1 ensures !IsSpace(p[1..][i]) {
          assert p[1..][i] == p[i + 1];
        }
      }
      SquashPrefix(u[1..], p[1..]);
      assert u[..|p|] == [u[0]] + u[1..][..|p| - 1];
    }
  }

  /** A whitespace-free string that occurs in the squashed string occurs in the original. */
  lemma {:induction false} SquashOccurs(s: string, sub: string, i: nat)
    requires sub != [] && NoSpace(sub) && OccursAt(SquashRuns(s), sub, i)
    ensures ContainsSub(s, sub)
    decreases |s|
  {
    var q := SquashRuns(s);
    if i == 0 {
      SquashPrefix(s, sub);
      assert OccursAt(s, sub, 0);
    } else if IsSpace(s[0]) {
      var t := LStrip(s);
      assert q == [' '] + SquashRuns(t);
      assert SquashRuns(t)[i - 1..i - 1 + |sub|] == q[i..i + |sub|];
      SquashOccurs(t, sub, i - 1);
      LStripSpec(s);
      assert s[|s| - |t|..|s|] == t;
      ContainsInSlice(s, |s| - |t|, |s|, sub);
    } else {
      assert q == [s[0]] + SquashRuns(s[1..]);
      assert SquashRuns(s[1..])[i - 1..i - 1 + |sub|] == q[i..i + |sub|];
      SquashOccurs(s[1..], sub, i - 1);
      assert s[1..|s|] == s[1..];
      ContainsInSlice(s, 1, |s|, sub);
    }
  }

  /** Collapsing whitespace creates no occurrence of a whitespace-free string. */
  lemma CollapseOccurs(s: string, sub: string)
    requires sub != [] && NoSpace(sub) && ContainsSub(Collapse(s), sub)
    ensures ContainsSub(s, sub)
  {
    var q := SquashRuns(s);
    var c := Collapse(s);
    StripIsSlice(q);
    var a := |q| - |LStrip(q)|;
    var i: nat :| i <= |c| && OccursAt(c, sub, i);
    OccursInSlice(q, a, a + |c|, sub, i);
    SquashOccurs(s, sub, a + i);
  }

  /** re.sub(r'\s+', ' ', s).strip(). */
  function Collapse(s: string): (r: string)
    ensures |r| <= |s|
  {
    Strip(SquashRuns(s))
  }

  predicate StartsWith(s: string, prefix: string)
  {
    |prefix| <= |s| && s[..|prefix|] == prefix
  }

  /** A string without line breaks is a single line. */
  lemma SplitLinesSingle(s: string)
    requires forall i :: 0 <= i < |s| ==> !IsLineBreak(s[i])
    ensures SplitLines(s) == [s]
  {
    assert LineEnd(s) == |s|;
  }

  /** Table-cell bars and newlines both end a markup line. */
  predicate IsLineBreak(c: char) { c == '|' || c == '\n' }

  function LineEnd(s: string): (k: nat)
    ensures k <= |s|
    ensures forall i :: 0 <= i < k ==> !IsLineBreak(s[i])
    ensures k < |s| ==> IsLineBreak(s[k])
    decreases |s|
  {
    if s == [] || IsLineBreak(s[0]) then 0 else 1 + LineEnd(s[1..])
  }

  /** markdown.replace("|", "\n").split("\n"). */
  function SplitLines(s: string): (lines: seq<string>)
    ensures |lines| >= 1
    ensures forall k, i :: 0 <= k < |lines| && 0 <= i < |lines[k]| ==> !IsLineBreak(lines[k][i])
    decreases |s|
  {
    var k := LineEnd(s);
    if k == |s| then [s] else [s[..k]] + SplitLines(s[k + 1..])
  }

  /** Appending a line after a newline appends exactly the lines of the new text. */
  lemma {:induction false} SplitLinesAppend(a: string, b: string)
    ensures SplitLines(a + ['\n'] + b) == SplitLines(a) + SplitLines(b)
    decreases |a|
  {
    var k := LineEnd(a);
    if k < |a| {
      SplitLinesAppend(a[k + 1..], b);
      SplitLinesAppendBreak(a, b, k, a[k + 1..]);
    } else {
      SplitLinesAppendLast(a, b);
    }
  }

  /** A text with a break at `k` splits into its first line and the lines after the break. */
  lemma SplitLinesAt(s: string, k: nat, rest: string)
    requires k == LineEnd(s) && k < |s| && rest == s[k + 1..]
    ensures SplitLines(s) == [s[..k]] + SplitLines(rest)
  {
  }

  /** When `a` has a break, its first line is also the first line of the longer text. */
  lemma SplitLinesAppendHead(a: string, b: string, k: nat, t: string)
    requires k == LineEnd(a) && k < |a| && t == a[k + 1..]
    ensures SplitLines(a + ['\n'] + b) == [a[..k]] + SplitLines(t + ['\n'] + b)
  {
    BreakInFirst(a, b, k, t);
    SplitLinesAt(a + ['\n'] + b, k, t + ['\n'] + b);
  }

  /** A break at `k` in `a` is the first break of `a + "\n" + b`, with the same text on either side. */
  lemma BreakInFirst(a: string, b: string, k: nat, t: string)
    requires k == LineEnd(a) && k < |a| && t == a[k + 1..]
    ensures var s := a + ['\n'] + b;
      LineEnd(s) == k && s[..k] == a[..k] && s[k + 1..] == t + ['\n'] + b
  {
    BreakLineEnd(a, b);
    AppendSlices(a, ['\n'] + b, k);
    ConsAppend(a, ['\n'], b);
    ConsAppend(t, ['\n'], b);
  }

  /** Text after a broken line does not move its break. */
  lemma BreakLineEnd(a: string, b: string)
    requires LineEnd(a) < |a|
    ensures LineEnd(a + ['\n'] + b) == LineEnd(a)
  {
    LineEndPrefix(a, ['\n'] + b);
    assert a + ['\n'] + b == a + (['\n'] + b);
  }

  /** Slicing before `k` and after `k` inside the first part of a concatenation. */
  lemma AppendSlices<T>(a: seq<T>, c: seq<T>, k: nat)
    requires k < |a|
    ensures (a + c)[..k] == a[..k] && (a + c)[k + 1..] == a[k + 1..] + c
  {
  }

  /** The inductive step of SplitLinesAppend when `a` has a break at `k`. */
  lemma SplitLinesAppendBreak(a: string, b: string, k: nat, t: string)
    requires k == LineEnd(a) && k < |a| && t == a[k + 1..]
    requires SplitLines(t + ['\n'] + b) == SplitLines(t) + SplitLines(b)
    ensures SplitLines(a + ['\n'] + b) == SplitLines(a) + SplitLines(b)
  {
    SplitLinesAppendHead(a, b, k, t);
    SplitLinesAt(a, k, t);
    ConsAppend([a[..k]], SplitLines(t), SplitLines(b));
  }

  /** Concatenation is associative. */
  lemma ConsAppend<T>(x: seq<T>, y: seq<T>, z: seq<T>)
    ensures x + (y + z) == (x + y) + z
  {
  }

  /** When `a` has no break, it is the first line of the longer text. */
  lemma SplitLinesAppendLast(a: string, b: string)
    requires LineEnd(a) == |a|
    ensures SplitLines(a + ['\n'] + b) == SplitLines(a) + SplitLines(b)
  {
    var s := a + ['\n'] + b;
    LineEndPrefix(a, ['\n'] + b);
    assert a + ['\n'] + b == a + (['\n'] + b);
    assert LineEnd(['\n'] + b) == 0;
    assert LineEnd(s) == |a|;
    assert s[..|a|] == a && s[|a| + 1..] == b;
  }

  /** LineEnd of `a + t` is LineEnd of `a` when `a` has a break, else |a| plus LineEnd of `t`. */
  lemma {:induction false} LineEndPrefix(a: string, t: string)
    ensures LineEnd(a) < |a| ==> LineEnd(a + t) == LineEnd(a)
    ensures LineEnd(a) == |a| ==> LineEnd(a + t) == |a| + LineEnd(t)
    decreases |a|
  {
    if a != [] && !IsLineBreak(a[0]) {
      assert (a + t)[1..] == a[1..] + t;
      LineEndPrefix(a[1..], t);
    } else if a == [] {
      assert a + t == t;
    }
  }
}
