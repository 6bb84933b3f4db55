/** The lyric side of `generate_toml` in lrc-to-cdg.py: parse the LRC
    content, stop when it yields nothing usable, otherwise produce the text
    block and the sync list that the karaoke config is built from. */
module Pipeline {
  import opened PyStr
  import opened Lrc
  import opened Format

  /** `[lyric["timestamp"] for lyric in lyrics_data]`: one sync time per
      lyric, in order. */
  function SyncTimes(lyrics: seq<Lyric>): (sync: seq<nat>)
    ensures |sync| == |lyrics|
    ensures forall i :: 0 <= i < |lyrics| ==> sync[i] == lyrics[i].timestamp
  {
    seq(|lyrics|, i requires 0 <= i < |lyrics| => lyrics[i].timestamp)
  }

  /** Why `generate_toml` returns early: `parse_lrc` raised, or it returned
      no lyrics. */
  datatype Abort = ParseFailed | NoLyricsData

  /** What the lyric stage hands on: an early stop, or the sync list and the
      formatted text. */
  datatype Outcome = Aborted(reason: Abort) | Generated(sync: seq<nat>, text: string)

  /** The lyrics the file yields. */
  function ParsedLyrics(content: string): seq<Lyric>
  {
    Lyrics(FindAll(content))
  }

  /** The text block the file yields. */
  function Text(content: string, wrap: string -> string): string
  {
    Join(Paced(Flushed(Segments(ParsedLyrics(content)), WrapFlush(wrap))), '\n')
  }

  /** The lyric stage of `generate_toml`: the two early returns and, past
      them, the formatted text and the sync list. */
  method GenerateLyrics(content: string, wrap: string -> string) returns (r: Outcome)
    ensures r == Aborted(ParseFailed) <==> !AnyStamp(SplitOn(content, '\n'))
    ensures r == Aborted(NoLyricsData) <==> AnyStamp(SplitOn(content, '\n')) && ParsedLyrics(content) == []
    ensures r.Generated? ==> r.sync == SyncTimes(ParsedLyrics(content)) && r.text == Text(content, wrap)
    ensures r.Generated? ==>
      SplitOn(r.text, '\n') == Paced(Flushed(Segments(ParsedLyrics(content)), WrapFlush(wrap)))
  {
    var parsed := ParseLrc(content);
    if parsed.Err? {
      return Aborted(ParseFailed);
    }
    var lyricsData := parsed.value;
    if |lyricsData| == 0 {
      return Aborted(NoLyricsData);
    }
    var formatted := FormatLyrics(lyricsData, wrap);
    var syncTimes := SyncTimes(lyricsData);
    return Generated(syncTimes, formatted);
  }

  /** The sync list has one entry per matched line with text, whatever the
      wrapping does to the lines, and every entry is a stamp the pattern can
      spell. */
  lemma SyncFromContent(content: string)
    ensures var sync := SyncTimes(ParsedLyrics(content));
      |sync| == TextCount(FindAll(content)) <= |FindAll(content)|
      && forall i :: 0 <= i < |sync| ==> sync[i] <= MaxStamp
  {
    var ms := FindAll(content);
    LyricsCount(ms);
    LyricsWellFormed(ms);
    var ls := Lyrics(ms);
    assert forall i :: 0 <= i < |ls| ==> WellFormed(ls[i]);
  }

  /** The parser keeps the '/' that opens a line's text, since '/' is not
      whitespace, so the segmenter still sees the mark. */
  lemma SlashKept(m: Match)
    requires Marked(m.rest)
    ensures HasText(m) && Marked(ToLyric(m).text)
  {
    var s := m.rest;
    var t := LStrip(s);
    assert s == s[..|s| - |t|] + t;
    assert t == s;
    var r := RStrip(t);
    SplitBlank(s);
    assert !AllSpace(s);
    assert r == t[..|r|];
    StripFacts(s);
  }
}
