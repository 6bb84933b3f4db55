/** The text side of `format_lyrics` in lrc-to-cdg.py: grouping lyrics into
    display units at '/' marks, handing each unit to the wrapper, and
    marking sentence ends with a "~" line. The wrapper the converter calls
    (`get_wrapped_text`) lives in another library; it is the parameter
    `wrap`, and its result is split at line breaks as the converter does.
    The segmentation itself is stated for any `flush` that turns a buffer
    into lines; `WrapFlush(wrap)` is the one the converter uses. */
module Format {
  import opened Seqs
  import opened PyStr
  import opened Lrc

  /** `text.startswith("/")`: the lyric begins a new display unit. */
  predicate Marked(t: string)
  {
    t != [] && t[0] == '/'
  }

  /** The text a lyric contributes: one leading '/' removed, nothing else
      touched (no second strip). */
  function Body(t: string): (b: string)
    ensures Marked(t) ==> t == ['/'] + b
    ensures !Marked(t) ==> b == t
  {
    if Marked(t) then t[1..] else t
  }

  /** The buffer `current_line` after appending the lyrics of `seg`: each
      lyric's body followed by one space. */
  function Buffer(seg: seq<Lyric>): (buf: string)
    ensures |buf| >= |seg|
  {
    if seg == [] then []
    else Buffer(seg[..|seg| - 1]) + Body(seg[|seg| - 1].text) + " "
  }

  /** The display units: a new unit starts at every marked lyric except the
      first lyric of all, since the buffer is empty only before any lyric
      has been appended (a lone "/" still leaves a space in it). */
  function Segments(ls: seq<Lyric>): seq<seq<Lyric>>
  {
    if ls == [] then []
    else
      var prev := Segments(ls[..|ls| - 1]);
      var l := ls[|ls| - 1];
      if prev == [] then [[l]]
      else if Marked(l.text) then prev + [[l]]
      else prev[..|prev| - 1] + [prev[|prev| - 1] + [l]]
  }

  /** The lines a flushed buffer becomes: stripped, wrapped, and split at
      line breaks. */
  function Wrapped(buf: string, wrap: string -> string): (lines: seq<string>)
    ensures |lines| >= 1 && NoBreaks(lines)
  {
    SplitOn(wrap(Strip(buf)), '\n')
  }

  function WrapFlush(wrap: string -> string): string -> seq<string>
  {
    buf => Wrapped(buf, wrap)
  }

  /** `formatted_lyrics`: the lines each unit's buffer is flushed into, in
      order. */
  function Flushed(segs: seq<seq<Lyric>>, flush: string -> seq<string>): seq<string>
  {
    if segs == [] then [] else Flushed(segs[..|segs| - 1], flush) + flush(Buffer(segs[|segs| - 1]))
  }

  /** The segmentation loop of `format_lyrics`: one flush per display unit,
      in order. */
  method SegmentLyrics(lyrics: seq<Lyric>, wrap: string -> string) returns (formatted: seq<string>)
    ensures formatted == Flushed(Segments(lyrics), WrapFlush(wrap))
  {
    formatted := [];
    var currentLine: string := "";
    ghost var done: seq<seq<Lyric>> := [];
    ghost var open: seq<Lyric> := [];
    var i := 0;
    while i < |lyrics|
      invariant 0 <= i <= |lyrics|
      invariant i > 0 ==> Segments(lyrics[..i]) == done + [open]
      invariant formatted == Flushed(done, WrapFlush(wrap))
      invariant currentLine == Buffer(open)
      invariant i == 0 ==> done == [] && open == []
      invariant i > 0 ==> currentLine != []
    {
      var text := lyrics[i].text;
      ghost var l := lyrics[i];
      ghost var done', open' := SegmentsAdvance(lyrics, i, done, open);
      if |text| > 0 && text[0] == '/' {
        if currentLine != [] {
          formatted := FlushLine(formatted, currentLine, wrap, done, open);
          currentLine := "";
        }
        text := text[1..];
        BufferSnoc([], l);
      } else {
        BufferSnoc(open, l);
      }
      currentLine := currentLine + text + " ";
      done, open := done', open';
      i := i + 1;
    }
    assert lyrics[..i] == lyrics;
    if currentLine != [] {
      formatted := FlushLine(formatted, currentLine, wrap, done, open);
    }
  }

  /** `formatted_lyrics.extend(get_wrapped_text(current_line.strip()).split("\n"))`:
      flushing the open unit's buffer appends that unit's lines to those of
      the closed units. */
  method FlushLine(formatted: seq<string>, currentLine: string, wrap: string -> string,
                   ghost done: seq<seq<Lyric>>, ghost open: seq<Lyric>)
    returns (extended: seq<string>)
    requires formatted == Flushed(done, WrapFlush(wrap)) && currentLine == Buffer(open)
    ensures extended == Flushed(done + [open], WrapFlush(wrap))
  {
    FlushStep(done, open, wrap);
    extended := formatted + Wrapped(currentLine, wrap);
  }

  /** Flushing the open unit's buffer through the converter appends that
      unit's lines. */
  lemma FlushStep(done: seq<seq<Lyric>>, open: seq<Lyric>, wrap: string -> string)
    ensures Flushed(done + [open], WrapFlush(wrap)) == Flushed(done, WrapFlush(wrap)) + Wrapped(Buffer(open), wrap)
  {
    FlushedSnoc(done, open, WrapFlush(wrap));
  }

  /** The units after one lyric more, in the terms of the loop's state: the
      closed units `done` and the open unit `open`. */
  lemma SegmentsAdvance(ls: seq<Lyric>, i: nat, done: seq<seq<Lyric>>, open: seq<Lyric>)
      returns (done': seq<seq<Lyric>>, open': seq<Lyric>)
    requires i < |ls|
    requires i == 0 ==> done == [] && open == []
    requires i > 0 ==> Segments(ls[..i]) == done + [open]
    ensures Segments(ls[..i + 1]) == done' + [open']
    ensures i > 0 && Marked(ls[i].text) ==> done' == done + [open] && open' == [] + [ls[i]]
    ensures !(i > 0 && Marked(ls[i].text)) ==> done' == done && open' == open + [ls[i]]
  {
    TakeNext(ls, i);
    SegmentsSnoc(ls[..i], ls[i]);
    if i > 0 && Marked(ls[i].text) {
      done', open' := done + [open], [] + [ls[i]];
      assert [] + [ls[i]] == [ls[i]];
    } else {
      done', open' := done, open + [ls[i]];
      if i == 0 {
        assert ls[..0] == [];
      }
    }
    if i > 0 {
      SplitLast(done + [open]);
      assert (done + [open])[..|done|] == done;
    }
  }

  lemma FlushedSnoc(segs: seq<seq<Lyric>>, seg: seq<Lyric>, flush: string -> seq<string>)
    ensures Flushed(segs + [seg], flush) == Flushed(segs, flush) + flush(Buffer(seg))
  {
    assert (segs + [seg])[..|segs|] == segs;
  }

  lemma BufferSnoc(seg: seq<Lyric>, l: Lyric)
    ensures Buffer(seg + [l]) == Buffer(seg) + Body(l.text) + " "
  {
    assert (seg + [l])[..|seg|] == seg;
  }

  /** One lyric more: the first lyric opens the first unit; later a marked
      lyric opens a new unit and any other joins the open one. */
  lemma SegmentsSnoc(ls: seq<Lyric>, l: Lyric)
    ensures var segs := Segments(ls);
      Segments(ls + [l]) ==
        if segs == [] then [[l]]
        else if Marked(l.text) then segs + [[l]]
        else segs[..|segs| - 1] + [segs[|segs| - 1] + [l]]
  {
    assert (ls + [l])[..|ls|] == ls;
  }

  /** The cut points of a segmentation: no unit is empty, every unit after
      the first opens with a marked lyric, and no lyric inside a unit is
      marked. */
  predicate WellCut(segs: seq<seq<Lyric>>)
  {
    (forall k :: 0 <= k < |segs| ==> segs[k] != [])
    && (forall k :: 0 < k < |segs| && segs[k] != [] ==> Marked(segs[k][0].text))
    && (forall k, j :: 0 <= k < |segs| && 0 < j < |segs[k]| ==> !Marked(segs[k][j].text))
  }

  /** The units are the lyrics, in order, none lost or repeated, cut exactly
      before the marked lyrics after the first. */
  lemma {:induction false} SegmentsCut(ls: seq<Lyric>)
    ensures Flatten(Segments(ls)) == ls
    ensures WellCut(Segments(ls))
  {
    if ls != [] {
      var init := ls[..|ls| - 1];
      var l := ls[|ls| - 1];
      SegmentsCut(init);
      var prev := Segments(init);
      if prev == [] {
        FirstStep(ls);
      } else if Marked(l.text) {
        OpenStep(ls, prev);
      } else {
        JoinStep(ls, prev);
      }
    }
  }

  /** The first lyric opens the first unit. */
  lemma FirstStep(ls: seq<Lyric>)
    requires |ls| == 1
    ensures Flatten([[ls[0]]]) == ls && WellCut([[ls[0]]])
  {
    FlattenSnoc([], ls);
    assert [] + [ls] == [ls];
    assert ls == [ls[0]];
  }

  /** A marked lyric after the first opens a unit of its own. */
  lemma OpenStep(ls: seq<Lyric>, prev: seq<seq<Lyric>>)
    requires ls != [] && Flatten(prev) == ls[..|ls| - 1] && WellCut(prev) && prev != []
    requires Marked(ls[|ls| - 1].text)
    ensures Flatten(prev + [[ls[|ls| - 1]]]) == ls && WellCut(prev + [[ls[|ls| - 1]]])
  {
    var l := ls[|ls| - 1];
    SplitLast(ls);
    FlattenSnoc(prev, [l]);
    CutSnoc(prev, [l]);
  }

  /** An unmarked lyric joins the last unit. */
  lemma JoinStep(ls: seq<Lyric>, prev: seq<seq<Lyric>>)
    requires ls != [] && Flatten(prev) == ls[..|ls| - 1] && WellCut(prev) && prev != []
    requires !Marked(ls[|ls| - 1].text)
    ensures var n := |prev| - 1; var l := ls[|ls| - 1];
      Flatten(prev[..n] + [prev[n] + [l]]) == ls && WellCut(prev[..n] + [prev[n] + [l]])
  {
    var l := ls[|ls| - 1];
    SplitLast(ls);
    FlattenGrow(prev, l);
    CutGrow(prev, l);
  }

  /** A new unit opened by a marked lyric keeps the cut well formed. */
  lemma CutSnoc(segs: seq<seq<Lyric>>, seg: seq<Lyric>)
    requires WellCut(segs) && segs != [] && seg != [] && Marked(seg[0].text)
    requires forall j :: 0 < j < |seg| ==> !Marked(seg[j].text)
    ensures WellCut(segs + [seg])
  {
    var s2 := segs + [seg];
    assert forall k :: 0 <= k < |segs| ==> s2[k] == segs[k];
  }

  /** An unmarked lyric joining the last unit keeps the cut well formed. */
  lemma CutGrow(segs: seq<seq<Lyric>>, l: Lyric)
    requires WellCut(segs) && segs != [] && !Marked(l.text)
    ensures WellCut(segs[..|segs| - 1] + [segs[|segs| - 1] + [l]])
  {
    var n := |segs| - 1;
    var s2 := segs[..n] + [segs[n] + [l]];
    assert forall k :: 0 <= k < n ==> s2[k] == segs[k];
    assert s2[n][0] == segs[n][0];
    assert forall j :: 0 <= j < |segs[n]| ==> s2[n][j] == segs[n][j];
  }

  /** The cut is the only one: any segmentation of the same lyrics with the
      same cut points is the one the loop makes. */
  lemma {:induction false} CutUnique(ls: seq<Lyric>, segs: seq<seq<Lyric>>)
    requires Flatten(segs) == ls && WellCut(segs)
    ensures segs == Segments(ls)
    decreases |ls|
  {
    if segs != [] {
      var n := |segs| - 1;
      var last := segs[n];
      assert last != [];
      LastUnit(ls, segs);
      if |last| == 1 {
        CutFront(segs);
        CutUnique(ls[..|ls| - 1], segs[..n]);
        assert n > 0 ==> Marked(segs[n][0].text);
        AloneLast(ls, segs);
      } else {
        var segs' := segs[..n] + [last[..|last| - 1]];
        TrimCut(segs);
        CutUnique(ls[..|ls| - 1], segs');
        assert !Marked(last[|last| - 1].text);
        JoinedLast(ls, segs);
      }
    }
  }

  /** The last lyric is the last of the last unit, and the lyrics before it
      are the units with that lyric taken away. */
  lemma LastUnit(ls: seq<Lyric>, segs: seq<seq<Lyric>>)
    requires Flatten(segs) == ls && segs != [] && segs[|segs| - 1] != []
    ensures var n := |segs| - 1;
      ls != [] && ls[|ls| - 1] == segs[n][|segs[n]| - 1]
      && ls[..|ls| - 1] == Flatten(segs[..n] + [segs[n][..|segs[n]| - 1]])
      && (|segs[n]| == 1 ==> ls[..|ls| - 1] == Flatten(segs[..n]))
  {
    var n := |segs| - 1;
    var front := segs[..n];
    var last := segs[n];
    SplitLast(segs);
    FlattenSnoc(front, last);
    var shorter := last[..|last| - 1];
    FlattenSnoc(front, shorter);
    SplitLast(last);
    assert Flatten(segs) == (Flatten(front) + shorter) + [last[|last| - 1]];
    if |last| == 1 {
      assert Flatten(front) + shorter == Flatten(front);
    }
  }

  /** Dropping the last unit keeps the cut well formed. */
  lemma CutFront(segs: seq<seq<Lyric>>)
    requires WellCut(segs) && segs != []
    ensures WellCut(segs[..|segs| - 1])
  {
    var front := segs[..|segs| - 1];
    assert forall k :: 0 <= k < |front| ==> front[k] == segs[k];
  }

  /** A last unit of one lyric: that lyric opened it, marked unless it is the
      first unit. */
  lemma AloneLast(ls: seq<Lyric>, segs: seq<seq<Lyric>>)
    requires segs != [] && |segs[|segs| - 1]| == 1
    requires |segs| > 1 ==> Marked(segs[|segs| - 1][0].text)
    requires ls != [] && ls[|ls| - 1] == segs[|segs| - 1][0]
    requires Segments(ls[..|ls| - 1]) == segs[..|segs| - 1]
    ensures segs == Segments(ls)
  {
    var n := |segs| - 1;
    var l := ls[|ls| - 1];
    SegmentsSnoc(ls[..|ls| - 1], l);
    SplitLast(ls);
    assert segs[n] == [l];
    SplitLast(segs);
  }

  /** A last unit of two or more lyrics: its last lyric, unmarked, joined
      it. */
  lemma JoinedLast(ls: seq<Lyric>, segs: seq<seq<Lyric>>)
    requires segs != [] && |segs[|segs| - 1]| >= 2
    requires !Marked(segs[|segs| - 1][|segs[|segs| - 1]| - 1].text)
    requires ls != [] && ls[|ls| - 1] == segs[|segs| - 1][|segs[|segs| - 1]| - 1]
    requires var n := |segs| - 1;
      Segments(ls[..|ls| - 1]) == segs[..n] + [segs[n][..|segs[n]| - 1]]
    ensures segs == Segments(ls)
  {
    var n := |segs| - 1;
    var l := ls[|ls| - 1];
    var prev := segs[..n] + [segs[n][..|segs[n]| - 1]];
    SegmentsSnoc(ls[..|ls| - 1], l);
    SplitLast(ls);
    assert prev[..|prev| - 1] == segs[..n];
    SplitLast(segs[n]);
    SplitLast(segs);
  }

  /** Dropping the last lyric of a unit of two or more keeps the cut well
      formed. */
  lemma TrimCut(segs: seq<seq<Lyric>>)
    requires WellCut(segs) && segs != [] && |segs[|segs| - 1]| >= 2
    ensures var n := |segs| - 1;
      WellCut(segs[..n] + [segs[n][..|segs[n]| - 1]])
  {
    var n := |segs| - 1;
    var s2 := segs[..n] + [segs[n][..|segs[n]| - 1]];
    assert forall k :: 0 <= k < n ==> s2[k] == segs[k];
    assert forall j :: 0 <= j < |s2[n]| ==> s2[n][j] == segs[n][j];
  }

  /** No lyrics, no units; otherwise at least one. */
  lemma SegmentsEmpty(ls: seq<Lyric>)
    ensures Segments(ls) == [] <==> ls == []
  {
    if ls != [] {
      SegmentsSnoc(ls[..|ls| - 1], ls[|ls| - 1]);
      assert ls == ls[..|ls| - 1] + [ls[|ls| - 1]];
    }
  }

  /** The bodies of the lyrics of a unit, in order. */
  function Bodies(seg: seq<Lyric>): seq<string>
  {
    if seg == [] then [] else Bodies(seg[..|seg| - 1]) + [Body(seg[|seg| - 1].text)]
  }

  /** Every lyric of a unit is appended followed by one space: the buffer is
      the bodies joined by single spaces, with one trailing space. */
  lemma {:induction false} BufferJoin(seg: seq<Lyric>)
    requires seg != []
    ensures Buffer(seg) == Join(Bodies(seg), ' ') + " "
  {
    var init := seg[..|seg| - 1];
    var l := seg[|seg| - 1];
    if init == [] {
      assert Bodies(init) == [];
    } else {
      BufferJoin(init);
      JoinSnoc(Bodies(init), Body(l.text), ' ');
    }
  }

  /** A lone "/" lyric leaves a single space in the buffer, so a following
      marked lyric still flushes it, and the wrapper receives the empty
      string for it. */
  lemma LoneSlash(a: Lyric, b: Lyric, flush: string -> seq<string>)
    requires a.text == "/" && Marked(b.text)
    ensures Segments([a, b]) == [[a], [b]]
    ensures Buffer([a]) == " " && Strip(Buffer([a])) == ""
    ensures Flushed(Segments([a, b]), flush) == flush(" ") + flush(Buffer([b]))
  {
    TwoUnits(a, b);
    SpaceUnit(a);
    FlushedTwo([a], [b], flush);
  }

  lemma FlushedTwo(x: seq<Lyric>, y: seq<Lyric>, flush: string -> seq<string>)
    ensures Flushed([x, y], flush) == flush(Buffer(x)) + flush(Buffer(y))
  {
    assert Flushed([x], flush) == flush(Buffer(x)) by {
      assert [x][..0] == [];
      assert Flushed([], flush) == [];
    }
    assert Flushed([x, y], flush) == Flushed([x], flush) + flush(Buffer(y)) by {
      assert [x, y][..1] == [x];
    }
  }

  lemma TwoUnits(a: Lyric, b: Lyric)
    requires Marked(b.text)
    ensures Segments([a, b]) == [[a], [b]]
  {
    SegmentsSnoc([], a);
    SegmentsSnoc([a], b);
    SplitLast([a, b]);
    SplitLast([a]);
  }

  lemma SpaceUnit(a: Lyric)
    requires a.text == "/"
    ensures Buffer([a]) == " " && Strip(Buffer([a])) == ""
  {
    BufferSnoc([], a);
    SplitLast([a]);
    assert Buffer([a]) == " ";
    assert Strip(" ") == "";
  }

  /** `line.endswith(("!", "?", "."))`. */
  predicate EndsSentence(line: string)
  {
    line != [] && (line[|line| - 1] == '!' || line[|line| - 1] == '?' || line[|line| - 1] == '.')
  }

  /** What the pacing pass writes for one line: the line, then the pause
      marker "~" when the line ends a sentence. */
  function Step(line: string): seq<string>
  {
    if EndsSentence(line) then [line, "~"] else [line]
  }

  /** `final_lyrics`: every line in order, each followed by its pause
      marker. */
  function Paced(lines: seq<string>): seq<string>
  {
    if lines == [] then [] else Paced(lines[..|lines| - 1]) + Step(lines[|lines| - 1])
  }

  /** Number of lines that end a sentence. */
  function Stops(lines: seq<string>): nat
  {
    if lines == [] then 0
    else Stops(lines[..|lines| - 1]) + (if EndsSentence(lines[|lines| - 1]) then 1 else 0)
  }

  /** The pacing loop of `format_lyrics`. */
  method Pace(lines: seq<string>) returns (final: seq<string>)
    ensures final == Paced(lines)
  {
    final := [];
    var i := 0;
    while i < |lines|
      invariant 0 <= i <= |lines|
      invariant final == Paced(lines[..i])
    {
      var line := lines[i];
      TakeNext(lines, i);
      PacedSnoc(lines[..i], line);
      final := final + [line];
      if |line| > 0 && (line[|line| - 1] == '!' || line[|line| - 1] == '?' || line[|line| - 1] == '.') {
        final := final + ["~"];
      }
      i := i + 1;
    }
    assert lines[..i] == lines;
  }

  lemma PacedSnoc(lines: seq<string>, line: string)
    ensures Paced(lines + [line]) == Paced(lines) + Step(line)
  {
    assert (lines + [line])[..|lines|] == lines;
  }

  /** Pacing distributes over concatenation. */
  lemma {:induction false} PacedAppend(a: seq<string>, b: seq<string>)
    ensures Paced(a + b) == Paced(a) + Paced(b)
    decreases |b|
  {
    if b == [] {
      assert a + b == a;
    } else {
      var b' := b[..|b| - 1];
      var x := b[|b| - 1];
      SplitLast(b);
      assert a + b == (a + b') + [x];
      PacedSnoc(a + b', x);
      PacedAppend(a, b');
      PacedSnoc(b', x);
    }
  }

  /** One output line per input line, plus one marker per sentence end. */
  lemma {:induction false} PacedLength(lines: seq<string>)
    ensures |Paced(lines)| == |lines| + Stops(lines)
  {
    if lines != [] {
      PacedLength(lines[..|lines| - 1]);
    }
  }

  /** Where each input line lands: line `i` is copied to position
      `i + Stops(lines[..i])`. An inserted marker follows it exactly when it
      ends a sentence; otherwise the next input line follows directly, or
      the output ends. */
  lemma PacedAt(lines: seq<string>, i: nat)
    requires i < |lines|
    ensures var p := i + Stops(lines[..i]);
      p < |Paced(lines)| && Paced(lines)[p] == lines[i]
      && (EndsSentence(lines[i]) ==> p + 1 < |Paced(lines)| && Paced(lines)[p + 1] == "~")
      && (!EndsSentence(lines[i]) ==>
            (i + 1 < |lines| ==> p + 1 < |Paced(lines)| && Paced(lines)[p + 1] == lines[i + 1])
            && (i + 1 == |lines| ==> p + 1 == |Paced(lines)|))
      && Stops(lines[..i + 1]) == Stops(lines[..i]) + (if EndsSentence(lines[i]) then 1 else 0)
  {
    PacedPos(lines, i, i + Stops(lines[..i]));
    if !EndsSentence(lines[i]) {
      if i + 1 < |lines| {
        PacedNext(lines, i);
      } else {
        PacedLength(lines);
        assert lines[..i + 1] == lines;
      }
    }
  }

  /** A line that ends no sentence is followed directly by the next one. */
  lemma PacedNext(lines: seq<string>, i: nat)
    requires i + 1 < |lines| && !EndsSentence(lines[i])
    ensures var p := i + Stops(lines[..i]);
      p + 1 < |Paced(lines)| && Paced(lines)[p + 1] == lines[i + 1]
  {
    StopsStep(lines, i);
    PacedPos(lines, i + 1, i + Stops(lines[..i]) + 1);
  }

  /** One line more adds one stop exactly when it ends a sentence. */
  lemma StopsStep(lines: seq<string>, i: nat)
    requires i < |lines|
    ensures Stops(lines[..i + 1]) == Stops(lines[..i]) + (if EndsSentence(lines[i]) then 1 else 0)
  {
    assert lines[..i + 1][..i] == lines[..i];
  }

  /** The position of line `i` in the output, and the marker after it. */
  lemma PacedPos(lines: seq<string>, i: nat, p: nat)
    requires i < |lines| && p == i + Stops(lines[..i])
    ensures p < |Paced(lines)| && Paced(lines)[p] == lines[i]
      && (EndsSentence(lines[i]) ==> p + 1 < |Paced(lines)| && Paced(lines)[p + 1] == "~")
      && Stops(lines[..i + 1]) == Stops(lines[..i]) + (if EndsSentence(lines[i]) then 1 else 0)
  {
    var pre := lines[..i];
    var post := lines[i + 1..];
    assert lines == (pre + [lines[i]]) + post;
    PacedAppend(pre + [lines[i]], post);
    PacedSnoc(pre, lines[i]);
    PacedLength(pre);
    assert lines[..i + 1] == pre + [lines[i]];
    assert (pre + [lines[i]])[..i] == pre;
  }

  /** Deleting the markers: drop the "~" that follows each sentence end. */
  function Unpace(s: seq<string>): seq<string>
  {
    if s == [] then []
    else if EndsSentence(s[0]) && |s| >= 2 && s[1] == "~" then [s[0]] + Unpace(s[2..])
    else [s[0]] + Unpace(s[1..])
  }

  /** Deleting the inserted markers gives the input back. */
  lemma {:induction false} UnpacePaced(lines: seq<string>)
    ensures Unpace(Paced(lines)) == lines
  {
    if lines != [] {
      var x := lines[0];
      var rest := lines[1..];
      assert lines == [x] + rest;
      PacedAppend([x], rest);
      assert [x][..0] == [];
      assert Paced([x]) == Step(x);
      UnpacePaced(rest);
      var s := Step(x) + Paced(rest);
      if EndsSentence(x) {
        assert s[2..] == Paced(rest);
      } else {
        assert s[1..] == Paced(rest);
      }
    }
  }

  /** No line holds a line break. */
  predicate NoBreaks(lines: seq<string>)
  {
    forall i :: 0 <= i < |lines| ==> Lacks(lines[i], '\n')
  }

  /** A flush that, like splitting at line breaks, yields at least one line
      and no line holding a break. */
  ghost predicate SplitsLines(flush: string -> seq<string>)
  {
    forall b :: |flush(b)| >= 1 && NoBreaks(flush(b))
  }

  lemma WrapFlushSplits(wrap: string -> string)
    ensures SplitsLines(WrapFlush(wrap))
  {
    forall b ensures |WrapFlush(wrap)(b)| >= 1 && NoBreaks(WrapFlush(wrap)(b)) {
      var lines := Wrapped(b, wrap);
      assert WrapFlush(wrap)(b) == lines;
    }
  }

  /** Every unit contributes at least one line, and no line holds a
      break. */
  lemma {:induction false} FlushedLines(segs: seq<seq<Lyric>>, flush: string -> seq<string>)
    requires SplitsLines(flush)
    ensures NoBreaks(Flushed(segs, flush))
    ensures |Flushed(segs, flush)| >= |segs|
  {
    if segs != [] {
      var init := segs[..|segs| - 1];
      FlushedLines(init, flush);
      var prev := Flushed(init, flush);
      var unit := flush(Buffer(segs[|segs| - 1]));
      assert Flushed(segs, flush) == prev + unit;
      assert forall i :: 0 <= i < |prev| ==> (prev + unit)[i] == prev[i];
      assert forall i :: 0 <= i < |unit| ==> (prev + unit)[|prev| + i] == unit[i];
    }
  }

  /** Pacing adds only the marker, which holds no line break. */
  lemma {:induction false} PacedLines(lines: seq<string>)
    requires NoBreaks(lines)
    ensures NoBreaks(Paced(lines))
  {
    if lines != [] {
      var init := lines[..|lines| - 1];
      assert forall i :: 0 <= i < |init| ==> init[i] == lines[i];
      PacedLines(init);
      var prev := Paced(init);
      var step := Step(lines[|lines| - 1]);
      assert forall i :: 0 <= i < |prev| ==> (prev + step)[i] == prev[i];
      assert forall i :: 0 <= i < |step| ==> (prev + step)[|prev| + i] == step[i];
      assert Lacks("~", '\n');
    }
  }

  /** `format_lyrics(lyrics_data)`: the units' wrapped lines, paced, joined
      with line breaks. For a non-empty lyric list the text splits back
      into exactly those lines. */
  method FormatLyrics(lyrics: seq<Lyric>, wrap: string -> string) returns (result: string)
    ensures result == Join(Paced(Flushed(Segments(lyrics), WrapFlush(wrap))), '\n')
    ensures lyrics != [] ==> SplitOn(result, '\n') == Paced(Flushed(Segments(lyrics), WrapFlush(wrap)))
  {
    var formatted := SegmentLyrics(lyrics, wrap);
    var final := Pace(formatted);
    result := Join(final, '\n');
    if lyrics != [] {
      SegmentsEmpty(lyrics);
      WrapFlushSplits(wrap);
      FlushedLines(Segments(lyrics), WrapFlush(wrap));
      PacedLength(formatted);
      PacedLines(formatted);
      SplitOnJoin(final, '\n');
    }
  }
}
