/** The few Python `str` operations the converter relies on: `isspace`,
    `strip`, `split()` on whitespace, `split(sep)` and `sep.join(...)`. */
module PyStr {
  import opened Seqs

  /** Python's `str.isspace` for one character: the ASCII controls TAB..CR and
      FS..US, the space, and the Unicode separators Python also treats as
      whitespace. `strip()` and `split()` use the same test. */
  predicate IsSpace(c: char)
  {
    var k := c as int;
    (9 <= k <= 13) || (28 <= k <= 32) || k == 0x85 || k == 0xA0 || k == 0x1680
    || (0x2000 <= k <= 0x200A) || k == 0x2028 || k == 0x2029 || k == 0x202F
    || k == 0x205F || k == 0x3000
  }

  predicate AllSpace(s: string)
  {
    forall i :: 0 <= i < |s| ==> IsSpace(s[i])
  }

  /** A word as `str.split()` yields it: non-empty, no whitespace. */
  predicate IsWord(w: string)
  {
    w != [] && forall i :: 0 <= i < |w| ==> !IsSpace(w[i])
  }

  /** `s.lstrip()`: the suffix left after dropping the leading whitespace. */
  function LStrip(s: string): (r: string)
    ensures |r| <= |s| && r == s[|s| - |r|..]
    ensures AllSpace(s[..|s| - |r|])
    ensures r != [] ==> !IsSpace(r[0])
  {
    if s != [] && IsSpace(s[0]) then
      var r := LStrip(s[1..]);
      assert s[..|s| - |r|] == [s[0]] + s[1..][..|s| - 1 - |r|];
      r
    else s
  }

  /** `s.rstrip()`: the prefix left after dropping the trailing whitespace. */
  function RStrip(s: string): (r: string)
    ensures |r| <= |s| && r == s[..|r|]
    ensures AllSpace(s[|r|..])
    ensures r != [] ==> !IsSpace(r[|r| - 1])
  {
    if s != [] && IsSpace(s[|s| - 1]) then
      var r := RStrip(s[..|s| - 1]);
      assert s[|r|..] == s[..|s| - 1][|r|..] + [s[|s| - 1]];
      r
    else s
  }

  /** `s.strip()`. */
  function Strip(s: string): (r: string)
    ensures r == [] <==> AllSpace(s)
    ensures r != [] ==> !IsSpace(r[0]) && !IsSpace(r[|r| - 1])
  {
    StripFacts(s);
    RStrip(LStrip(s))
  }

  lemma StripFacts(s: string)
    ensures RStrip(LStrip(s)) == [] <==> AllSpace(s)
    ensures RStrip(LStrip(s)) != [] ==> LStrip(s)[0] == RStrip(LStrip(s))[0]
  {
    var t := LStrip(s);
    var r := RStrip(t);
    var k := |s| - |t|;
    if r == [] {
      assert s == s[..k];
    }
    if r != [] {
      assert r[0] == t[..|r|][0];
    }
  }

  /** A text with no whitespace at either end is left as it is. */
  lemma StripNoop(r: string)
    requires r != [] ==> !IsSpace(r[0]) && !IsSpace(r[|r| - 1])
    ensures Strip(r) == r
  {
    assert LStrip(r) == r;
    assert RStrip(r) == r;
  }

  /** Stripping twice is stripping once. */
  lemma StripIdempotent(s: string)
    ensures Strip(Strip(s)) == Strip(s)
  {
    StripNoop(Strip(s));
  }

  /** Length of the longest prefix of `s` holding no whitespace. */
  function WordLength(s: string): (n: nat)
    ensures n <= |s|
    ensures forall i :: 0 <= i < n ==> !IsSpace(s[i])
    ensures n < |s| ==> IsSpace(s[n])
  {
    if s == [] || IsSpace(s[0]) then 0 else 1 + WordLength(s[1..])
  }

  /** A text that opens with a non-whitespace character opens with a word. */
  lemma WordPrefix(t: string)
    requires t != [] && !IsSpace(t[0])
    ensures WordLength(t) > 0 && IsWord(t[..WordLength(t)])
  {
  }

  /** A word put in front of words gives words. */
  lemma ConsWords(w: string, rest: seq<string>)
    requires IsWord(w) && forall i :: 0 <= i < |rest| ==> IsWord(rest[i])
    ensures forall i :: 0 <= i < |[w] + rest| ==> IsWord(([w] + rest)[i])
  {
  }

  /** `s.split()` with no argument: the maximal runs of non-whitespace, in
      order. */
  function Split(s: string): (ws: seq<string>)
    ensures forall i :: 0 <= i < |ws| ==> IsWord(ws[i])
    decreases |s|
  {
    var t := LStrip(s);
    if t == [] then []
    else
      var n := WordLength(t);
      var w := t[..n];
      WordPrefix(t);
      var rest := Split(t[n..]);
      ConsWords(w, rest);
      [w] + rest
  }

  /** `split()` yields no word exactly when the text is blank. */
  lemma SplitBlank(s: string)
    ensures Split(s) == [] <==> AllSpace(s)
  {
    var t := LStrip(s);
    var k := |s| - |t|;
    if t == [] {
      assert s == s[..k];
    } else {
      assert s[k] == t[0];
    }
  }

  /** `sep.join(parts)` for a one-character separator. */
  function Join(parts: seq<string>, sep: char): string
  {
    if parts == [] then ""
    else if |parts| == 1 then parts[0]
    else parts[0] + [sep] + Join(parts[1..], sep)
  }

  /** Joining one part more adds the separator and that part. */
  lemma {:induction false} JoinSnoc(parts: seq<string>, p: string, sep: char)
    requires parts != []
    ensures Join(parts + [p], sep) == Join(parts, sep) + [sep] + p
    decreases |parts|
  {
    var ps := parts + [p];
    if |parts| == 1 {
      assert ps[1..] == [p];
    } else {
      assert ps[1..] == parts[1..] + [p];
      JoinSnoc(parts[1..], p, sep);
    }
  }

  /** `" ".join(words)`, the way `wrap_text` assembles a line. */
  function JoinWords(words: seq<string>): string
  {
    Join(words, ' ')
  }

  /** Leading whitespace does not change `split()`. */
  lemma SplitSkipsSpace(c: char, s: string)
    requires IsSpace(c)
    ensures Split([c] + s) == Split(s)
  {
    assert ([c] + s)[1..] == s;
    assert LStrip([c] + s) == LStrip(s);
  }

  /** A word followed by whitespace or nothing is split off first. */
  lemma SplitWordFirst(w: string, rest: string)
    requires IsWord(w)
    requires rest == [] || IsSpace(rest[0])
    ensures Split(w + rest) == [w] + Split(rest)
  {
    var s := w + rest;
    LStripWord(s);
    WordLengthAt(w, rest);
    assert s[..|w|] == w && s[|w|..] == rest;
  }

  /** Text that opens with a non-whitespace character is left as it is by
      `lstrip()`. */
  lemma LStripWord(s: string)
    requires s != [] && !IsSpace(s[0])
    ensures LStrip(s) == s
  {
  }

  /** The first word of a word followed by whitespace or nothing is that
      word. */
  lemma WordLengthAt(w: string, rest: string)
    requires IsWord(w)
    requires rest == [] || IsSpace(rest[0])
    ensures WordLength(w + rest) == |w|
  {
    var s := w + rest;
    assert forall i :: 0 <= i < |w| ==> s[i] == w[i];
    assert rest != [] ==> s[|w|] == rest[0];
  }

  /** Splitting a single-space join peels off its first word. */
  lemma SplitJoinFirst(words: seq<string>)
    requires |words| >= 2 && IsWord(words[0])
    ensures Split(JoinWords(words)) == [words[0]] + Split(JoinWords(words[1..]))
  {
    var rest := JoinWords(words[1..]);
    assert JoinWords(words) == words[0] + ([' '] + rest);
    SplitWordFirst(words[0], [' '] + rest);
    SplitSkipsSpace(' ', rest);
  }

  /** Round trip: splitting words joined by single spaces gives them back. */
  lemma {:induction false} SplitJoinWords(words: seq<string>)
    requires forall i :: 0 <= i < |words| ==> IsWord(words[i])
    ensures Split(JoinWords(words)) == words
    decreases |words|
  {
    if |words| == 1 {
      SplitOneWord(words[0]);
    } else if |words| >= 2 {
      SplitJoinFirst(words);
      WordsTail(words);
      SplitJoinWords(words[1..]);
      SplitFirst(words);
    }
  }

  /** A single word splits into itself. */
  lemma SplitOneWord(w: string)
    requires IsWord(w)
    ensures Split(w) == [w]
  {
    SplitWordFirst(w, "");
    assert w + "" == w;
  }

  /** The words after the first are words. */
  lemma WordsTail(words: seq<string>)
    requires words != [] && forall i :: 0 <= i < |words| ==> IsWord(words[i])
    ensures forall i :: 0 <= i < |words[1..]| ==> IsWord(words[1..][i])
  {
  }

  /** `c not in s`. */
  predicate Lacks(s: string, c: char)
  {
    forall i :: 0 <= i < |s| ==> s[i] != c
  }

  /** Index of the first `c` in `s`, or `|s|` when there is none. */
  function Find(s: string, c: char): (n: nat)
    ensures n <= |s|
    ensures n < |s| ==> s[n] == c
    ensures forall i :: 0 <= i < n ==> s[i] != c
  {
    if s == [] || s[0] == c then 0 else 1 + Find(s[1..], c)
  }

  /** `s.split(sep)` for a one-character separator: always at least one part
      (`"".split("\n") == [""]`), and no part holds the separator. */
  function SplitOn(s: string, sep: char): (parts: seq<string>)
    ensures |parts| >= 1
    ensures forall i :: 0 <= i < |parts| ==> Lacks(parts[i], sep)
    decreases |s|
  {
    var n := Find(s, sep);
    if n == |s| then [s] else [s[..n]] + SplitOn(s[n + 1..], sep)
  }

  /** Round trip one way: joining the parts of a split restores the text. */
  lemma {:induction false} JoinSplitOn(s: string, sep: char)
    ensures Join(SplitOn(s, sep), sep) == s
    decreases |s|
  {
    var n := Find(s, sep);
    if n < |s| {
      var rest := s[n + 1..];
      var parts := SplitOn(s, sep);
      assert parts == [s[..n]] + SplitOn(rest, sep);
      assert parts[1..] == SplitOn(rest, sep);
      assert Join(parts, sep) == s[..n] + [sep] + Join(SplitOn(rest, sep), sep);
      JoinSplitOn(rest, sep);
      assert s == s[..n] + [sep] + rest;
    }
  }

  /** Round trip the other way: splitting separator-free parts joined by the
      separator gives the parts back. */
  lemma {:induction false} SplitOnJoin(parts: seq<string>, sep: char)
    requires |parts| >= 1
    requires forall i :: 0 <= i < |parts| ==> Lacks(parts[i], sep)
    ensures SplitOn(Join(parts, sep), sep) == parts
  {
    var p := parts[0];
    var s := Join(parts, sep);
    var n := Find(s, sep);
    if |parts| == 1 {
      assert n == |s|;
    } else {
      var rest := Join(parts[1..], sep);
      assert s == p + [sep] + rest;
      assert s[|p|] == sep;
      assert n == |p|;
      assert s[..n] == p && s[n + 1..] == rest;
      SplitOnJoin(parts[1..], sep);
      assert parts == [p] + parts[1..];
    }
  }
}
