/** The greedy word wrapper (`wrap_text` in lrc-to-cdg.py). Text width
    comes from a font-metric function passed in as `width`; the source
    measures with PIL. */
module Wrap {
  import opened Seqs
  import opened PyStr

  /** Sum of the measured widths of the words of one line. */
  function Total(g: seq<string>, width: string -> nat): nat
  {
    if g == [] then 0 else Total(g[..|g| - 1], width) + width(g[|g| - 1])
  }

  /** `current_width` once the words of `g` are on the line. A word that is
      appended adds its width and the width of a space; the word that opens a
      line after a restart adds its width only. `atStart` says that the line
      was begun by the append branch from the empty initial state, which only
      the first line can be. */
  function Placed(g: seq<string>, atStart: bool, width: string -> nat): nat
    requires g != []
  {
    var w := width(g[|g| - 1]);
    if |g| == 1 then (if atStart then w + width(" ") else w)
    else Placed(g[..|g| - 1], atStart, width) + w + width(" ")
  }

  /** Every word of the line passed `current_width + word_width <= max_width`
      when it was appended; the first word of a restarted line is placed
      without that test. */
  predicate Fits(g: seq<string>, atStart: bool, maxWidth: int, width: string -> nat)
    requires g != []
  {
    if |g| == 1 then (atStart ==> width(g[0]) <= maxWidth)
    else
      Fits(g[..|g| - 1], atStart, maxWidth, width)
      && Placed(g[..|g| - 1], atStart, width) + width(g[|g| - 1]) <= maxWidth
  }

  /** Line `k` was opened by the append branch: only the first line can be,
      and it is exactly when its first word fits the empty line. */
  predicate Opened(k: nat, g: seq<string>, maxWidth: int, width: string -> nat)
    requires g != []
  {
    k == 0 && width(g[0]) <= maxWidth
  }

  /** The lines `groups` (as word lists) are what the greedy pass makes: no
      line is empty, every word on a line passed the width test, and a line
      is closed only because the next word failed it. */
  predicate Greedy(groups: seq<seq<string>>, maxWidth: int, width: string -> nat)
  {
    (forall k :: 0 <= k < |groups| ==> LineFits(groups, k, maxWidth, width))
    && (forall k :: 0 <= k < |groups| - 1 ==> ClosedByNext(groups, k, maxWidth, width))
  }

  /** Line `k` is non-empty and every word on it passed the width test. */
  predicate LineFits(groups: seq<seq<string>>, k: nat, maxWidth: int, width: string -> nat)
    requires k < |groups|
  {
    groups[k] != [] && Fits(groups[k], Opened(k, groups[k], maxWidth, width), maxWidth, width)
  }

  /** Line `k`, holding `g`, fails the width test for the word `next`. */
  predicate ClosedBy(g: seq<string>, k: nat, next: string, maxWidth: int, width: string -> nat)
  {
    g != [] && Placed(g, Opened(k, g, maxWidth, width), width) + width(next) > maxWidth
  }

  /** Line `k` was closed because the first word of line `k + 1` failed the
      width test against it. */
  predicate ClosedByNext(groups: seq<seq<string>>, k: nat, maxWidth: int, width: string -> nat)
    requires k + 1 < |groups|
  {
    groups[k + 1] != [] && ClosedBy(groups[k], k, groups[k + 1][0], maxWidth, width)
  }

  predicate AllWords(g: seq<string>)
  {
    forall j :: 0 <= j < |g| ==> IsWord(g[j])
  }

  /** Every line's word list holds only words. */
  predicate AllLinesWords(groups: seq<seq<string>>)
  {
    forall k :: 0 <= k < |groups| ==> AllWords(groups[k])
  }

  /** The word list of each output line. */
  function LineWords(lines: seq<string>): (gs: seq<seq<string>>)
    ensures |gs| == |lines|
    ensures forall k :: 0 <= k < |lines| ==> gs[k] == Split(lines[k])
  {
    seq(|lines|, k requires 0 <= k < |lines| => Split(lines[k]))
  }

  /** The lines the word lists `groups` are joined into, one per list. */
  function Render(groups: seq<seq<string>>): (lines: seq<string>)
    ensures |lines| == |groups|
  {
    if groups == [] then [] else Render(groups[..|groups| - 1]) + [JoinWords(groups[|groups| - 1])]
  }

  /** The state of the greedy pass between two words: the open line
      `current`, holding the words after the closed lines `groups`, fits and
      has running width `currentWidth`; the last closed line was closed by its
      first word. The empty open line only occurs before the first word. */
  predicate Pending(groups: seq<seq<string>>, current: seq<string>, currentWidth: int, maxWidth: int, width: string -> nat)
  {
    (current == [] ==> groups == [] && currentWidth == 0)
    && (current != [] ==>
          var atStart := Opened(|groups|, current, maxWidth, width);
          Fits(current, atStart, maxWidth, width) && currentWidth == Placed(current, atStart, width))
    && (groups != [] ==> current != [] && ClosedBy(groups[|groups| - 1], |groups| - 1, current[0], maxWidth, width))
  }

  /** `wrap_text(text, max_width, font)`: the words of `text`, in order and
      none dropped, on single-spaced lines that the greedy pass delimits. */
  method WrapText(text: string, maxWidth: int, width: string -> nat) returns (lines: seq<string>)
    ensures Flatten(LineWords(lines)) == Split(text)
    ensures Greedy(LineWords(lines), maxWidth, width)
    ensures forall k :: 0 <= k < |lines| ==> lines[k] == JoinWords(Split(lines[k]))
    ensures lines == [] <==> AllSpace(text)
  {
    var words := Split(text);
    lines := [];
    var current: seq<string> := [];
    var currentWidth := 0;
    ghost var groups: seq<seq<string>> := [];
    var i := 0;
    while i < |words|
      invariant 0 <= i <= |words|
      invariant Flatten(groups) + current == words[..i]
      invariant current != [] || i == 0
      invariant lines == Render(groups)
      invariant Greedy(groups, maxWidth, width)
      invariant Pending(groups, current, currentWidth, maxWidth, width)
    {
      var word := words[i];
      var wordWidth := width(word);
      if currentWidth + wordWidth <= maxWidth {
        AppendWord(groups, current, currentWidth, word, maxWidth, width);
        assert Flatten(groups) + (current + [word]) == (Flatten(groups) + current) + [word];
        current := current + [word];
        currentWidth := currentWidth + wordWidth + width(" ");
      } else {
        if current != [] {
          lines := lines + [JoinWords(current)];
          GreedyClose(groups, current, currentWidth, word, maxWidth, width);
          FlattenSnoc(groups, current);
          RenderSnoc(groups, current);
          groups := groups + [current];
        }
        current := [word];
        currentWidth := wordWidth;
      }
      TakeNext(words, i);
      i := i + 1;
    }
    if current != [] {
      lines := lines + [JoinWords(current)];
      CloseLine(groups, current, currentWidth, maxWidth, width);
      FlattenSnoc(groups, current);
      RenderSnoc(groups, current);
      groups := groups + [current];
    }
    assert i == |words|;
    Finish(words, groups, maxWidth, width);
    SplitBlank(text);
  }

  /** Appending a word that passes the width test keeps the open line
      fitting and advances its running width by the word and a space. */
  lemma AppendWord(groups: seq<seq<string>>, current: seq<string>, currentWidth: int, word: string, maxWidth: int, width: string -> nat)
    requires Pending(groups, current, currentWidth, maxWidth, width)
    requires currentWidth + width(word) <= maxWidth
    ensures Pending(groups, current + [word], currentWidth + width(word) + width(" "), maxWidth, width)
  {
    assert (current + [word])[..|current|] == current;
    if current != [] {
      assert (current + [word])[0] == current[0];
    }
  }

  /** Closing the non-empty open line keeps the lines greedy: it fits, and
      the line before it was closed by its first word. */
  lemma CloseLine(groups: seq<seq<string>>, current: seq<string>, currentWidth: int, maxWidth: int, width: string -> nat)
    requires Greedy(groups, maxWidth, width)
    requires current != []
    requires Pending(groups, current, currentWidth, maxWidth, width)
    ensures Greedy(groups + [current], maxWidth, width)
  {
    var gs := groups + [current];
    forall k | 0 <= k < |gs| ensures LineFits(gs, k, maxWidth, width) {
      assert k < |groups| ==> gs[k] == groups[k] && LineFits(groups, k, maxWidth, width);
    }
    forall k | 0 <= k < |gs| - 1 ensures ClosedByNext(gs, k, maxWidth, width) {
      assert gs[k] == groups[k];
      if k < |groups| - 1 {
        assert gs[k + 1] == groups[k + 1] && ClosedByNext(groups, k, maxWidth, width);
      } else {
        assert gs[k + 1] == current;
      }
    }
  }

  /** Closing the open line because the next word `word` failed the width
      test keeps the closed lines greedy, and the line restarted with `word`
      is pending after them. */
  lemma GreedyClose(groups: seq<seq<string>>, current: seq<string>, currentWidth: int, word: string, maxWidth: int, width: string -> nat)
    requires Greedy(groups, maxWidth, width)
    requires current != []
    requires Pending(groups, current, currentWidth, maxWidth, width)
    requires currentWidth + width(word) > maxWidth
    ensures Greedy(groups + [current], maxWidth, width)
    ensures Pending(groups + [current], [word], width(word), maxWidth, width)
  {
    CloseLine(groups, current, currentWidth, maxWidth, width);
  }

  lemma RenderSnoc(groups: seq<seq<string>>, g: seq<string>)
    ensures Render(groups + [g]) == Render(groups) + [JoinWords(g)]
  {
    assert (groups + [g])[..|groups|] == groups;
  }

  /** The rendered lines of a greedy partition of `words` split back into
      that partition. */
  lemma Finish(words: seq<string>, groups: seq<seq<string>>, maxWidth: int, width: string -> nat)
    requires AllWords(words) && Flatten(groups) == words
    requires Greedy(groups, maxWidth, width)
    ensures Flatten(LineWords(Render(groups))) == words
    ensures Greedy(LineWords(Render(groups)), maxWidth, width)
    ensures forall k :: 0 <= k < |groups| ==> Render(groups)[k] == JoinWords(Split(Render(groups)[k]))
    ensures Render(groups) == [] <==> words == []
  {
    NoWordsNoLines(groups, maxWidth, width);
    FlattenWords(groups);
    LinesSplitBack(groups);
  }

  /** When the flattened lines hold only words, so does each line. */
  lemma {:induction false} FlattenWords(groups: seq<seq<string>>)
    requires AllWords(Flatten(groups))
    ensures AllLinesWords(groups)
  {
    if groups != [] {
      var init := groups[..|groups| - 1];
      var g := groups[|groups| - 1];
      assert Flatten(groups) == Flatten(init) + g;
      assert forall j :: 0 <= j < |Flatten(init)| ==> Flatten(init)[j] == Flatten(groups)[j];
      assert forall j :: 0 <= j < |g| ==> g[j] == Flatten(groups)[|Flatten(init)| + j];
      FlattenWords(init);
      assert forall k :: 0 <= k < |init| ==> groups[k] == init[k];
    }
  }

  /** Line `k` of the rendering is the join of word list `k`. */
  lemma {:induction false} RenderAt(groups: seq<seq<string>>)
    ensures forall k :: 0 <= k < |groups| ==> Render(groups)[k] == JoinWords(groups[k])
  {
    if groups != [] {
      var init := groups[..|groups| - 1];
      RenderAt(init);
      assert forall k :: 0 <= k < |init| ==> groups[k] == init[k];
    }
  }

  /** Splitting each rendered line again gives back the word list it was
      joined from. */
  lemma LinesSplitBack(groups: seq<seq<string>>)
    requires AllLinesWords(groups)
    ensures LineWords(Render(groups)) == groups
    ensures forall k :: 0 <= k < |groups| ==> Render(groups)[k] == JoinWords(groups[k])
  {
    RenderAt(groups);
    var lines := Render(groups);
    forall k | 0 <= k < |groups| ensures Split(lines[k]) == groups[k] {
      SplitJoinWords(groups[k]);
    }
  }

  /** The running width of a line is its words' widths plus one space per
      word appended after the first, and one more when the line was opened
      by the append branch. */
  lemma {:induction false} PlacedExact(g: seq<string>, atStart: bool, width: string -> nat)
    requires g != []
    ensures Placed(g, atStart, width) == Total(g, width) + (|g| - 1 + (if atStart then 1 else 0)) * width(" ")
  {
    if |g| > 1 {
      PlacedExact(g[..|g| - 1], atStart, width);
    }
  }

  /** Each word's width is part of the line's total. */
  lemma {:induction false} TotalCovers(g: seq<string>, j: nat, width: string -> nat)
    requires j < |g|
    ensures width(g[j]) <= Total(g, width)
  {
    if j < |g| - 1 {
      TotalCovers(g[..|g| - 1], j, width);
    }
  }

  /** The width bound of a line of two or more words: its words and its
      inner spaces fit, except the space before the first word that follows
      a restart, which the running width never counts. */
  lemma LineBound(g: seq<string>, atStart: bool, maxWidth: int, width: string -> nat)
    requires |g| >= 2 && Fits(g, atStart, maxWidth, width)
    ensures Total(g, width) + (|g| - 2 + (if atStart then 1 else 0)) * width(" ") <= maxWidth
  {
    var init := g[..|g| - 1];
    PlacedExact(init, atStart, width);
  }

  /** Line `k` of a greedy wrap with two or more words keeps the sum of its
      word widths within `maxWidth`; the first line, when its first word fit,
      also keeps every inner space within it. */
  lemma WidthLimit(groups: seq<seq<string>>, k: nat, maxWidth: int, width: string -> nat)
    requires Greedy(groups, maxWidth, width) && k < |groups| && |groups[k]| >= 2
    ensures Total(groups[k], width) <= maxWidth
    ensures Opened(k, groups[k], maxWidth, width) ==>
      Total(groups[k], width) + (|groups[k]| - 1) * width(" ") <= maxWidth
  {
    assert LineFits(groups, k, maxWidth, width);
    LineBound(groups[k], Opened(k, groups[k], maxWidth, width), maxWidth, width);
  }

  /** A word wider than `maxWidth` is on a line by itself: it is never split
      and never shares a line. */
  lemma OversizedAlone(groups: seq<seq<string>>, k: nat, j: nat, maxWidth: int, width: string -> nat)
    requires Greedy(groups, maxWidth, width) && k < |groups| && j < |groups[k]|
    requires width(groups[k][j]) > maxWidth
    ensures groups[k] == [groups[k][j]]
  {
    if |groups[k]| >= 2 {
      WidthLimit(groups, k, maxWidth, width);
      TotalCovers(groups[k], j, width);
    }
  }

  /** No line is empty, so there are lines exactly when there are words. */
  lemma NoWordsNoLines(groups: seq<seq<string>>, maxWidth: int, width: string -> nat)
    requires Greedy(groups, maxWidth, width)
    ensures Flatten(groups) == [] <==> groups == []
  {
    if groups != [] {
      assert LineFits(groups, |groups| - 1, maxWidth, width);
    }
  }
}
