/** The LRC reader: recognising timed lines `[MM:SS.mmm]`, converting their
    stamps to centiseconds and collecting the lyric events (`parse_lrc` in
    lrc-to-cdg.py). */
module Lrc {
  import opened PyStr

  datatype Option<T> = None | Some(value: T)

  datatype Result<T, E> = Ok(value: T) | Err(error: E)

  /** The one failure `parse_lrc` raises (a `ValueError`): no line of the
      file matches the timestamp pattern. */
  datatype ParseError = NoValidLyrics

  /** One match of `\[(\d{2}):(\d{2})\.(\d{3})\](\d+:)?(/?.*)`: the three
      numeric groups, the optional "N:" index group ("" when it is absent)
      and the last group, the rest of the line. */
  datatype Match = Match(minutes: nat, seconds: nat, millis: nat, index: string, rest: string)

  /** A lyric event: a timestamp in centiseconds and the stripped text, which
      still carries a leading '/' when the line had one. */
  datatype Lyric = Lyric(timestamp: nat, text: string)

  /** The largest stamp two-digit minutes and seconds and three-digit
      milliseconds can spell: [99:99.999]. */
  const MaxStamp: nat := (99 * 60 + 99) * 100 + 99

  predicate IsDigit(c: char)
  {
    '0' <= c <= '9'
  }

  function Digit(c: char): (d: nat)
    requires IsDigit(c)
    ensures d < 10
  {
    c as int - '0' as int
  }

  predicate AllDigits(s: string)
  {
    forall i :: 0 <= i < |s| ==> IsDigit(s[i])
  }

  /** Length of the run of ASCII digits at the start of `s`. */
  function DigitRun(s: string): (n: nat)
    ensures n <= |s| && AllDigits(s[..n])
    ensures n < |s| ==> !IsDigit(s[n])
  {
    if s == [] || !IsDigit(s[0]) then 0
    else
      var n := 1 + DigitRun(s[1..]);
      assert s[..n] == [s[0]] + s[1..][..n - 1];
      n
  }

  /** Length of the text matched by the optional group `(\d+:)?` at the start
      of `after`: the digit run and its colon when the run is followed by
      one, otherwise nothing. A shorter digit run is never followed by a
      colon, so backtracking finds no other match. */
  function IndexLength(after: string): (k: nat)
    ensures k <= |after|
    ensures k > 0 ==> k >= 2 && after[k - 1] == ':' && AllDigits(after[..k - 1])
    ensures k == 0 ==> forall j :: 0 < j < |after| && after[j] == ':' ==> !AllDigits(after[..j])
  {
    var d := DigitRun(after);
    if 0 < d < |after| && after[d] == ':' then d + 1
    else
      assert forall j :: d < j <= |after| ==> after[..j][d] == after[d];
      0
  }

  /** The fixed part of the pattern: `[`, two digits, `:`, two digits, `.`,
      three digits, `]`. */
  predicate HasStamp(line: string)
  {
    |line| >= 11 && line[0] == '[' && IsDigit(line[1]) && IsDigit(line[2])
    && line[3] == ':' && IsDigit(line[4]) && IsDigit(line[5]) && line[6] == '.'
    && IsDigit(line[7]) && IsDigit(line[8]) && IsDigit(line[9]) && line[10] == ']'
  }

  /** The pattern tried at the start of one line. `.` matches any character
      but a line break, so the last group runs to the end of the line. */
  function MatchLine(line: string): (m: Option<Match>)
    ensures m.Some? <==> HasStamp(line)
    ensures m.Some? ==>
      m.value.minutes == 10 * Digit(line[1]) + Digit(line[2])
      && m.value.seconds == 10 * Digit(line[4]) + Digit(line[5])
      && m.value.millis == 100 * Digit(line[7]) + 10 * Digit(line[8]) + Digit(line[9])
      && InRange(m.value)
    ensures m.Some? ==> var k := IndexLength(line[11..]);
      m.value.index == line[11..][..k] && m.value.rest == line[11..][k..]
    ensures m.Some? ==> line == line[..11] + m.value.index + m.value.rest
    ensures m.Some? ==> m.value.index == [] || (m.value.index[|m.value.index| - 1] == ':' && |m.value.index| >= 2)
  {
    if !HasStamp(line) then None
    else
      var after := line[11..];
      var k := IndexLength(after);
      assert line == line[..11] + after[..k] + after[k..];
      Some(Match(10 * Digit(line[1]) + Digit(line[2]),
                 10 * Digit(line[4]) + Digit(line[5]),
                 100 * Digit(line[7]) + 10 * Digit(line[8]) + Digit(line[9]),
                 after[..k], after[k..]))
  }

  predicate InRange(m: Match)
  {
    m.minutes < 100 && m.seconds < 100 && m.millis < 1000
  }

  /** Some line carries the timestamp pattern. */
  predicate AnyStamp(lines: seq<string>)
  {
    exists i :: 0 <= i < |lines| && HasStamp(lines[i])
  }

  /** The matches of the pattern, line by line, in file order (`re.findall`
      restricted to matches that start a line). */
  function Matches(lines: seq<string>): (ms: seq<Match>)
    ensures |ms| <= |lines|
    ensures ms == [] <==> !AnyStamp(lines)
    ensures forall j :: 0 <= j < |ms| ==> InRange(ms[j])
  {
    if lines == [] then []
    else
      var prev := Matches(lines[..|lines| - 1]);
      var last := lines[|lines| - 1];
      AnyStampLast(lines);
      match MatchLine(last)
      case None => prev
      case Some(m) => prev + [m]
  }

  /** Matching distributes over concatenation of the line list, so the
      matches come in file order. */
  lemma {:induction false} MatchesAppend(a: seq<string>, b: seq<string>)
    ensures Matches(a + b) == Matches(a) + Matches(b)
    decreases |b|
  {
    if b == [] {
      assert a + b == a;
    } else {
      var b' := b[..|b| - 1];
      assert (a + b)[..|a + b| - 1] == a + b';
      MatchesAppend(a, b');
    }
  }

  /** A single line contributes its match exactly when it carries the
      stamp. */
  lemma MatchesSingle(line: string)
    ensures Matches([line]) == if HasStamp(line) then [MatchLine(line).value] else []
  {
    assert [line][..0] == [];
  }

  /** A stamp spelled `[03:15.250]` is 3 minutes, 15 seconds and 250
      milliseconds, that is 19525 centiseconds. */
  lemma StampExample()
    ensures MatchLine("[03:15.250]text") == Some(Match(3, 15, 250, "", "text"))
    ensures ToLyric(Match(3, 15, 250, "", "text")).timestamp == 19525
  {
  }

  /** A lyric opening with digits and a colon loses them to the index
      group. */
  lemma IndexExample()
    ensures MatchLine("[00:01.000]12:34 go") == Some(Match(0, 1, 0, "12:", "34 go"))
  {
    var after := "12:34 go";
    assert "[00:01.000]12:34 go"[11..] == after;
    assert after[1..] == "2:34 go" && "2:34 go"[1..] == ":34 go";
    assert DigitRun(":34 go") == 0;
    assert DigitRun("2:34 go") == 1;
    assert DigitRun(after) == 2;
    assert IndexLength(after) == 3;
    assert after[..3] == "12:" && after[3..] == "34 go";
  }

  /** A second stamp on the same line is not a match of its own: the last
      group runs to the end of the line and keeps it in the text. */
  lemma MultiStampExample()
    ensures MatchLine("[00:12.000][01:15.000]x") == Some(Match(0, 12, 0, "", "[01:15.000]x"))
  {
    var after := "[01:15.000]x";
    assert "[00:12.000][01:15.000]x"[11..] == after;
    assert DigitRun(after) == 0;
    assert IndexLength(after) == 0;
    assert after[..0] == "" && after[0..] == after;
  }

  lemma AnyStampLast(lines: seq<string>)
    requires lines != []
    ensures AnyStamp(lines) <==> AnyStamp(lines[..|lines| - 1]) || HasStamp(lines[|lines| - 1])
  {
    var init := lines[..|lines| - 1];
    if AnyStamp(lines) && !HasStamp(lines[|lines| - 1]) {
      var i :| 0 <= i < |lines| && HasStamp(lines[i]);
      assert init[i] == lines[i];
    }
    if AnyStamp(init) {
      var i :| 0 <= i < |init| && HasStamp(init[i]);
      assert init[i] == lines[i];
    }
  }

  /** All matches in the file content; lines are separated by '\n'. */
  function FindAll(content: string): seq<Match>
  {
    Matches(SplitOn(content, '\n'))
  }

  /** `(minutes * 60 + seconds) * 100 + int(milliseconds / 10)`. With
      three-digit milliseconds the quotient by 100 is the whole seconds and
      the remainder the truncated hundredths. */
  function Centiseconds(minutes: nat, seconds: nat, millis: nat): (cs: nat)
    ensures millis < 1000 ==> cs / 100 == minutes * 60 + seconds && cs % 100 == millis / 10
    ensures minutes < 100 && seconds < 100 && millis < 1000 ==> cs <= MaxStamp
  {
    (minutes * 60 + seconds) * 100 + millis / 10
  }

  /** The lyric a match would contribute, whether or not its text is blank. */
  function ToLyric(m: Match): Lyric
  {
    Lyric(Centiseconds(m.minutes, m.seconds, m.millis), Strip(m.rest))
  }

  predicate HasText(m: Match)
  {
    Strip(m.rest) != []
  }

  /** The lyrics `parse_lrc` collects from its matches: each match whose
      stripped text is non-empty, in order. */
  function Lyrics(ms: seq<Match>): seq<Lyric>
  {
    if ms == [] then []
    else
      var prev := Lyrics(ms[..|ms| - 1]);
      var m := ms[|ms| - 1];
      if HasText(m) then prev + [ToLyric(m)] else prev
  }

  /** Number of matches whose text is not blank. */
  function TextCount(ms: seq<Match>): nat
  {
    if ms == [] then 0
    else TextCount(ms[..|ms| - 1]) + (if HasText(ms[|ms| - 1]) then 1 else 0)
  }

  /** `parse_lrc` on the file content: an error when no line matches at
      all; otherwise the lyrics, possibly none when every match is blank. */
  method ParseLrc(content: string) returns (r: Result<seq<Lyric>, ParseError>)
    ensures r.Err? <==> !AnyStamp(SplitOn(content, '\n'))
    ensures r.Ok? ==> r.value == Lyrics(FindAll(content))
  {
    var lines := SplitOn(content, '\n');
    var matches := Matches(lines);
    if |matches| == 0 {
      return Err(NoValidLyrics);
    }
    var lyrics: seq<Lyric> := [];
    var i := 0;
    while i < |matches|
      invariant 0 <= i <= |matches|
      invariant lyrics == Lyrics(matches[..i])
    {
      var m := matches[i];
      var timestamp := (m.minutes * 60 + m.seconds) * 100 + m.millis / 10;
      var text := Strip(m.rest);
      assert text != [] <==> HasText(m);
      if text != [] {
        lyrics := lyrics + [Lyric(timestamp, text)];
      }
      LyricsStep(matches, i);
      i := i + 1;
    }
    assert matches[..i] == matches;
    return Ok(lyrics);
  }

  lemma LyricsStep(ms: seq<Match>, i: nat)
    requires i < |ms|
    ensures Lyrics(ms[..i + 1]) == Lyrics(ms[..i]) + (if HasText(ms[i]) then [ToLyric(ms[i])] else [])
  {
    assert ms[..i + 1][..i] == ms[..i];
  }

  /** Collecting distributes over concatenation of the match list, so the
      lyrics keep the order of their lines. */
  lemma {:induction false} LyricsAppend(a: seq<Match>, b: seq<Match>)
    ensures Lyrics(a + b) == Lyrics(a) + Lyrics(b)
    decreases |b|
  {
    if b == [] {
      assert a + b == a;
    } else {
      var b' := b[..|b| - 1];
      assert (a + b)[..|a + b| - 1] == a + b';
      LyricsAppend(a, b');
    }
  }

  /** A single match contributes its lyric exactly when its text is not
      blank. */
  lemma LyricsSingle(m: Match)
    ensures Lyrics([m]) == if Strip(m.rest) != [] then [ToLyric(m)] else []
  {
    assert [m][..0] == [];
  }

  /** What `parse_lrc` guarantees of each lyric it returns: its text is
      non-empty and has no whitespace at either end, and its stamp is within
      range. */
  predicate WellFormed(l: Lyric)
  {
    l.text != [] && !IsSpace(l.text[0]) && !IsSpace(l.text[|l.text| - 1])
    && l.timestamp <= MaxStamp
  }

  /** Every collected lyric is well formed when its match's numbers were in
      range, as the pattern ensures. */
  lemma {:induction false} LyricsWellFormed(ms: seq<Match>)
    requires forall j :: 0 <= j < |ms| ==> InRange(ms[j])
    ensures forall k :: 0 <= k < |Lyrics(ms)| ==> WellFormed(Lyrics(ms)[k])
  {
    if ms != [] {
      var init := ms[..|ms| - 1];
      var m := ms[|ms| - 1];
      assert forall j :: 0 <= j < |init| ==> init[j] == ms[j];
      LyricsWellFormed(init);
      var prev := Lyrics(init);
      if HasText(m) {
        ToLyricWellFormed(m);
        var all := prev + [ToLyric(m)];
        assert Lyrics(ms) == all;
        assert forall k :: 0 <= k < |prev| ==> all[k] == prev[k];
      }
    }
  }

  /** The lyric of an in-range match with text is well formed. */
  lemma ToLyricWellFormed(m: Match)
    requires InRange(m) && HasText(m)
    ensures WellFormed(ToLyric(m))
  {
  }

  /** One lyric per match with text: the length of the result. */
  lemma {:induction false} LyricsCount(ms: seq<Match>)
    ensures |Lyrics(ms)| == TextCount(ms) <= |ms|
  {
    if ms != [] {
      LyricsCount(ms[..|ms| - 1]);
    }
  }
}
