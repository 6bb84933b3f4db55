# LRC to karaoke text: a verified model

`lrc-to-cdg.py` turns an LRC lyric file into the `sync` list and the `text`
block of a karaoke (CD+G) configuration. This project models, in Dafny, the
part of that script that computes those two values:

- the LRC reader `parse_lrc`: the timestamp pattern, the conversion of
  `[MM:SS.mmm]` to centiseconds, and the filter that drops blank lines
  (`lrc.dfy`, on top of a model of the Python string operations it uses in
  `pystr.dfy`);
- the greedy word wrapper `wrap_text`, with the font metric as a parameter
  (`wrap.dfy`);
- `format_lyrics`: lyrics are grouped into display units that start at a
  lyric beginning with `/`. Each unit's buffer is stripped, passed to the
  wrapper and split into lines. Every line that ends a sentence is then
  followed by a `~` line (`format.dfy`);
- the lyric stage of `generate_toml`: the two early returns, the formatted
  text and the `sync_times` list (`pipeline.dfy`).

Each loop of the script is a method whose `while` loop carries its
invariants. The method is proved equal to a specification function, or, for
the wrapper, to satisfy a declarative predicate. The lemmas then state what
the script promises about those functions: round trips, order, counts,
bounds and uniqueness.

Three behaviours of the code that the model reproduces:

- The parser keeps a leading `/` in the lyric text rather than recording
  it apart: the last pattern group `(/?.*)` captures it, and
  `format_lyrics` detects it again with `startswith("/")`.
- The parser raises its error only when no line matches the pattern at all.
  When lines match but all of their texts are blank, it returns an empty
  list, and `generate_toml` stops at its `if not lyrics_data` check.
- The segmenter flushes its buffer only when the buffer is non-empty. The
  buffer is empty only before the first lyric, since every lyric appends at
  least a space. So a lone `/` lyric still produces a unit, and the wrapper
  receives the empty string for it.

## Model

| member | source | states |
|---|---|---|
| PyStr.Strip | lrc-to-cdg.py:54 | `str.strip()`: the result is empty exactly when the text is all whitespace; otherwise it starts and ends with a non-whitespace character |
| PyStr.StripIdempotent | lrc-to-cdg.py:54 | stripping an already stripped text changes nothing |
| PyStr.Split | lrc-to-cdg.py:132 | `str.split()` yields only non-empty words without whitespace |
| PyStr.SplitBlank | lrc-to-cdg.py:132 | `split()` yields no word exactly when the text is blank |
| PyStr.SplitJoinWords | lrc-to-cdg.py:144 | splitting words joined by single spaces (`" ".join`) gives the same words back |
| PyStr.JoinSplitOn | lrc-to-cdg.py:171 | joining the parts of `split("\n")` with `"\n"` restores the text |
| PyStr.SplitOnJoin | lrc-to-cdg.py:192 | `"\n".join` of break-free parts splits back into exactly those parts |
| PyStr.JoinSnoc | lrc-to-cdg.py:192 | joining one more part appends the separator and that part |
| Lrc.IndexLength | lrc-to-cdg.py:44 | the optional group `(\d+:)?` takes the digit run and its colon when a colon follows the run, and nothing otherwise |
| Lrc.MatchLine | lrc-to-cdg.py:44-52 | a line matches exactly when it starts with `[`, two digits, `:`, two digits, `.`, three digits and `]`; the minutes, seconds and milliseconds are the decimal values of those digits; the index group takes what `IndexLength` says of the text after `]` and the last group the remainder, so the line is stamp, index and rest |
| Lrc.StampExample | lrc-to-cdg.py:44-53 | `[03:15.250]text` yields 3, 15 and 250 with empty index and text `text`, and the stamp 19525 |
| Lrc.IndexExample | lrc-to-cdg.py:44 | in `[00:01.000]12:34 go` the group `(\d+:)?` takes `12:` from the lyric, leaving `34 go` |
| Lrc.MultiStampExample | lrc-to-cdg.py:44 | a line with two stamps is one match: the greedy last group keeps the second stamp in the text |
| Lrc.Matches | lrc-to-cdg.py:45 | `findall` finds nothing exactly when no line carries the stamp; every match has in-range numbers |
| Lrc.MatchesAppend | lrc-to-cdg.py:45 | matching distributes over concatenation of the lines, so the matches come in file order |
| Lrc.MatchesSingle | lrc-to-cdg.py:44-45 | one line yields its `MatchLine` match exactly when it carries the stamp, and nothing otherwise |
| Lrc.Centiseconds | lrc-to-cdg.py:52-53 | the stamp divided by 100 is `minutes * 60 + seconds`, the remainder is the hundredths `millis / 10`, and a stamp spelled with two-digit fields is at most that of `[99:99.999]` |
| Lrc.ParseLrc | lrc-to-cdg.py:39-60 | the parser fails exactly when no line matches; otherwise it returns the lyrics of the matches in file order, keeping only those with non-blank text |
| Lrc.LyricsAppend | lrc-to-cdg.py:50-56 | collecting distributes over concatenation of the match list, so lyrics keep the order of their lines |
| Lrc.LyricsSingle | lrc-to-cdg.py:54-56 | one match contributes its lyric exactly when its stripped text is not empty |
| Lrc.LyricsWellFormed | lrc-to-cdg.py:52-56 | every returned lyric has non-empty text with no whitespace at either end, and a stamp within range |
| Lrc.LyricsCount | lrc-to-cdg.py:55-56 | exactly one lyric per match with non-blank text, so never more lyrics than matches |
| Wrap.WrapText | lrc-to-cdg.py:131-153 | the words of the output lines, in order, are exactly `text.split()`; each line is its words joined by single spaces; the lines are the greedy ones; there are no lines exactly when the text is blank |
| Wrap.AppendWord | lrc-to-cdg.py:139-141 | appending a word that passes the width test keeps the open line fitting and grows the running width by the word and a space |
| Wrap.GreedyClose | lrc-to-cdg.py:142-147 | closing the line because the next word failed the test keeps the lines greedy, and the restarted line holds that word at its bare width |
| Wrap.CloseLine | lrc-to-cdg.py:149-151 | flushing the last non-empty line keeps the lines greedy |
| Wrap.PlacedExact | lrc-to-cdg.py:139-147 | the running width is the words' widths plus one space per word after the first, plus one more space only on a line opened from the empty start |
| Wrap.TotalCovers | lrc-to-cdg.py:137-141 | each word's width is part of its line's total |
| Wrap.LineBound | lrc-to-cdg.py:139-147 | a fitting line of two or more words keeps its words and inner spaces within the limit, except the space before the first word after a restart |
| Wrap.WidthLimit | lrc-to-cdg.py:139-147 | on a greedy line of two or more words the sum of word widths is at most `max_width`; on the first line the inner spaces fit too |
| Wrap.OversizedAlone | lrc-to-cdg.py:139-147 | a word wider than `max_width` is alone on its line, never split |
| Wrap.NoWordsNoLines | lrc-to-cdg.py:149-153 | greedy lines are never empty, so there are lines exactly when there are words |
| Wrap.FlattenWords | lrc-to-cdg.py:132 | when all the words are words, so is every line's word list |
| Wrap.LinesSplitBack | lrc-to-cdg.py:144-150 | splitting each joined line gives back the word list it was built from |
| Wrap.Finish | lrc-to-cdg.py:149-153 | the joined greedy lines split back into the greedy partition of the words |
| Format.Body | lrc-to-cdg.py:173 | a marked text is `/` followed by its body; an unmarked one is its own body |
| Format.Wrapped | lrc-to-cdg.py:169-171 | a flushed buffer becomes at least one line, and no line holds a line break |
| Format.SegmentLyrics | lrc-to-cdg.py:161-181 | the lines collected are the flushes of the display units, in order |
| Format.FlushLine | lrc-to-cdg.py:169-171 | extending the collected lines by the wrapped, split buffer of the open unit gives the flushes of the closed units and that one |
| Format.FlushedSnoc | lrc-to-cdg.py:168-172 | flushing one more unit appends its lines |
| Format.BufferSnoc | lrc-to-cdg.py:175 | appending a lyric adds its body and one space to the buffer |
| Format.SegmentsSnoc | lrc-to-cdg.py:166-175 | a lyric opens the first unit, or a new unit when marked, or else joins the open unit |
| Format.SegmentsCut | lrc-to-cdg.py:166-175 | the units hold every lyric once and in order, none is empty, each after the first opens with a marked lyric, and no later lyric inside a unit is marked |
| Format.CutUnique | lrc-to-cdg.py:166-175 | any segmentation of the lyrics with those cut points is the one the loop makes |
| Format.SegmentsEmpty | lrc-to-cdg.py:178-181 | there are units exactly when there are lyrics, so the final flush happens exactly when the list is non-empty |
| Format.BufferJoin | lrc-to-cdg.py:173-175 | a unit's buffer is the bodies of its lyrics joined by single spaces, plus one trailing space |
| Format.LoneSlash | lrc-to-cdg.py:166-175 | a lone `/` lyric leaves `" "` in the buffer, a following marked lyric flushes it, and the wrapper receives `""` for that unit |
| Format.FlushedTwo | lrc-to-cdg.py:171 | two units flush into their lines, first then second |
| Format.TwoUnits | lrc-to-cdg.py:166-172 | a marked second lyric opens a second unit |
| Format.SpaceUnit | lrc-to-cdg.py:173-175 | the buffer of a lone `/` lyric is one space, which strips to the empty string |
| Format.Pace | lrc-to-cdg.py:184-190 | the pacing loop writes each line and, after a sentence end, one `~` |
| Format.PacedSnoc | lrc-to-cdg.py:185-189 | one more line adds that line and its marker |
| Format.PacedAppend | lrc-to-cdg.py:184-190 | pacing distributes over concatenation of the line list |
| Format.PacedLength | lrc-to-cdg.py:184-190 | the output has one line per input line plus one per sentence end |
| Format.PacedAt | lrc-to-cdg.py:184-190 | input line `i` lands at position `i` plus the sentence ends before it; an inserted `~` follows it exactly when it ends with `!`, `?` or `.`, and otherwise the next input line follows directly, or the output ends |
| Format.PacedNext | lrc-to-cdg.py:184-190 | a line that ends no sentence is followed directly by the next input line |
| Format.UnpacePaced | lrc-to-cdg.py:184-190 | deleting the `~` after each sentence end gives the input lines back |
| Format.WrapFlushSplits | lrc-to-cdg.py:169-171 | the converter's flush always yields at least one line and no line breaks |
| Format.FlushedLines | lrc-to-cdg.py:171-181 | every unit contributes at least one line, and no collected line holds a break |
| Format.PacedLines | lrc-to-cdg.py:184-190 | pacing introduces no line break |
| Format.FormatLyrics | lrc-to-cdg.py:156-194 | the result is the paced lines of the units joined with `"\n"`, and for non-empty lyrics it splits back into exactly those lines |
| Pipeline.SyncTimes | lrc-to-cdg.py:77 | one sync time per lyric, equal to its timestamp, in the same order |
| Pipeline.GenerateLyrics | lrc-to-cdg.py:63-77 | stops with the parse failure exactly when no line matches, and with "no lyrics" exactly when lines match but all are blank; otherwise it yields the sync list of the parsed lyrics and their formatted text |
| Pipeline.SyncFromContent | lrc-to-cdg.py:52-56 | the sync list has one entry per matched line with text, whatever the wrapping does, each at most the largest stamp |
| Pipeline.SlashKept | lrc-to-cdg.py:44 | a matched text that begins with `/` keeps the slash after stripping, so the segmenter still sees the mark |

## Left out

- Reading the LRC file, building the TOML dictionary and writing it (lrc-to-cdg.py:40-41, 81-116) are I/O and constant glue. The model starts from the file content as a string and stops at the sync list and the text.
- Font loading and PIL measurement (`get_font`, `get_text_width`, lrc-to-cdg.py:119-128) are foreign library calls. The wrapper takes the width as a parameter `width: string -> nat`.
- `get_wrapped_text` (imported from `cdgmaker.render`) is not part of this model. `format_lyrics` calls it rather than `wrap_text`, so the segmenter takes it as a parameter `wrap: string -> string` and models the `.split("\n")` applied to its result.
- The `KaraokeComposer` run, `main` and the argument parser (lrc-to-cdg.py:197-239) are external tooling and command-line plumbing.
- Logging, `print` and the colour, path and size constants (lrc-to-cdg.py:11-36) have no behavioural content.
- Lrc.MatchLine: only a match that starts a line is modelled. `re.findall` also finds a stamp further into a line that does not begin with one (after leading whitespace or a byte-order mark, say); such a match is not modelled. A line with several stamps gives one match in both, and its text keeps the later stamps (`Lrc.MultiStampExample`).
- Lrc.IsDigit: `\d` also matches non-ASCII Unicode digits; the model accepts ASCII `0`-`9` only.
- Lrc.Centiseconds: the source computes `int(milliseconds / 10)` in floating point. For the three-digit values the pattern admits (0 to 999) this equals integer division, which is what the model uses.
- PyStr.IsSpace: Python's whitespace set is written out as the characters `str.isspace` accepts. Python's exact Unicode database for other code points is not modelled.
