/**
 * `split_text_into_chunks` of `utils.py`: greedy splitting of a long text into windows
 * of at most `max_tokens * 4` characters that break at a paragraph, a sentence or a
 * space when one lies far enough into the window, consecutive windows overlapping by
 * `overlap` characters.
 *
 * The loop as written can fail to advance: the space fallback may choose an end no
 * further than `start + overlap`, after which `start` stays put or becomes negative
 * (Python then indexes from the end of the string). `LoopAsWritten` models that code,
 * with a fuel bound, and `DefaultParametersCanHang` exhibits a text on which it never
 * finishes. `ChooseEnd` and `SplitTextIntoChunks` are the corrected chunker used by the
 * research stage: an end that would not advance past `start + overlap` is replaced by the
 * hard cut `start + max_chars`.
 */
module Chunker {
  import opened Wrappers
  import opened Text

  // ---------------------------------------------------------------- Python indexing

  /** A slice bound as Python normalises it: negative counts from the end, then clamped to `[0, n]`. */
  function Clip(i: int, n: nat): (c: nat)
    ensures c <= n
    ensures 0 <= i <= n ==> c == i
  {
    if i < 0 then (if i + n < 0 then 0 else i + n) else if i > n then n else i
  }

  /** `s[lo:hi]` for arbitrary integer bounds. */
  function PySlice(s: string, lo: int, hi: int): string {
    var a := Clip(lo, |s|);
    var b := Clip(hi, |s|);
    if a < b then s[a..b] else ""
  }

  /** `s.rfind(sub, lo, hi)` for arbitrary integer bounds. */
  function PyRFind(s: string, sub: string, lo: int, hi: int): int {
    RFind(s, sub, Clip(lo, |s|), Clip(hi, |s|))
  }

  // ---------------------------------------------------------------- the break choice

  /**
   * The end of the window that starts at `start`, as the loop body computes it when
   * `start + max_chars` is inside the text: after the last paragraph break if that lies
   * past the middle of the window, else after the last sentence break if that lies past
   * its first third, else after the last space if that lies past `start`, else the full
   * window.
   */
  function BreakEnd(text: string, start: int, maxChars: nat): int {
    var end := start + maxChars;
    var paragraphBreak := PyRFind(text, "\n\n", start, end);
    var sentenceBreak := PyRFind(text, ". ", start, end);
    if paragraphBreak > start + maxChars / 2 then paragraphBreak + 2
    else if sentenceBreak > start + maxChars / 3 then sentenceBreak + 2
    else
      var spacePosition := PyRFind(text, " ", start, end);
      if spacePosition > start then spacePosition + 1 else end
  }

  /** A window end chosen from inside the text lies past `start` and inside the window. */
  lemma BreakEndInWindow(text: string, start: nat, maxChars: nat)
    requires 0 < maxChars && start + maxChars < |text|
    ensures start < BreakEnd(text, start, maxChars) <= start + maxChars
  {
    var w := start + maxChars;
    assert Clip(start, |text|) == start && Clip(w, |text|) == w;
    RFindSpec(text, "\n\n", start, w);
    RFindSpec(text, ". ", start, w);
    RFindSpec(text, " ", start, w);
  }

  /** Some occurrence of `sub` lies wholly inside `text[lo:hi]` and starts after `t`. */
  predicate HasBreakAfter(text: string, sub: string, lo: nat, hi: nat, t: int) {
    exists j: nat :: t < j && lo <= j && j + |sub| <= hi && OccursAt(text, sub, j)
  }

  /** `j` is the last occurrence of `sub` lying wholly inside `text[..hi]`. */
  predicate LastBefore(text: string, sub: string, j: int, hi: nat) {
    0 <= j && j + |sub| <= hi && OccursAt(text, sub, j)
    && forall k: nat :: j < k && k + |sub| <= hi ==> !OccursAt(text, sub, k)
  }

  /** The last occurrence found by `rfind` lies past `t` exactly when some occurrence does. */
  lemma RFindPast(text: string, sub: string, lo: nat, hi: nat, t: int)
    requires lo <= t
    ensures HasBreakAfter(text, sub, lo, hi, t) <==> RFind(text, sub, lo, hi) > t
    ensures RFind(text, sub, lo, hi) > t ==> LastBefore(text, sub, RFind(text, sub, lo, hi), hi)
  {
    RFindSpec(text, sub, lo, hi);
  }

  /**
   * The break preference, stated through what the window contains: a paragraph break
   * past the middle wins, then a sentence break past the first third, then a space past
   * `start`, each time cutting after the last one of its kind; otherwise the whole
   * window is taken. The end always lies inside the window and past `start`.
   */
  lemma BreakEndSpec(text: string, start: nat, maxChars: nat)
    requires 0 < maxChars && start + maxChars < |text|
    ensures var e := BreakEnd(text, start, maxChars); var w := start + maxChars;
      && start < e <= w
      && (HasBreakAfter(text, "\n\n", start, w, start + maxChars / 2) ==>
            LastBefore(text, "\n\n", e - 2, w))
      && (!HasBreakAfter(text, "\n\n", start, w, start + maxChars / 2)
          && HasBreakAfter(text, ". ", start, w, start + maxChars / 3) ==>
            LastBefore(text, ". ", e - 2, w))
      && (!HasBreakAfter(text, "\n\n", start, w, start + maxChars / 2)
          && !HasBreakAfter(text, ". ", start, w, start + maxChars / 3)
          && HasBreakAfter(text, " ", start, w, start) ==>
            LastBefore(text, " ", e - 1, w))
      && (!HasBreakAfter(text, "\n\n", start, w, start + maxChars / 2)
          && !HasBreakAfter(text, ". ", start, w, start + maxChars / 3)
          && !HasBreakAfter(text, " ", start, w, start) ==>
            e == w)
  {
    var w := start + maxChars;
    BreakEndInWindow(text, start, maxChars);
    assert Clip(start, |text|) == start && Clip(w, |text|) == w;
    RFindPast(text, "\n\n", start, w, start + maxChars / 2);
    RFindPast(text, ". ", start, w, start + maxChars / 3);
    RFindPast(text, " ", start, w, start);
  }

  // ---------------------------------------------------------------- the loop as written

  /**
   * The `while start < len(text)` loop of the source from a given `start`, with `fuel`
   * bounding the number of windows cut before the final one; `None` when the fuel runs out.
   */
  function LoopAsWritten(text: string, start: int, maxChars: nat, overlap: nat, fuel: nat): Option<seq<string>>
    decreases fuel
  {
    if start >= |text| then Some([])
    else if start + maxChars >= |text| then Some([PySlice(text, start, |text|)])
    else if fuel == 0 then None
    else
      var end := BreakEnd(text, start, maxChars);
      match LoopAsWritten(text, end - overlap, maxChars, overlap, fuel - 1)
      case None => None
      case Some(rest) => Some([PySlice(text, start, end)] + rest)
  }

  /** `split_text_into_chunks(text, max_tokens, overlap)` as written, within `fuel` windows. */
  function ChunksAsWritten(text: string, maxTokens: nat, overlap: nat, fuel: nat): Option<seq<string>> {
    var maxChars := maxTokens * 4;
    if |text| <= maxChars then Some([text]) else LoopAsWritten(text, 0, maxChars, overlap, fuel)
  }

  /** `s` holds no occurrence of `sub` at all. */
  lemma NoOccurrence(s: string, sub: string, lo: nat, hi: nat)
    requires forall j: nat :: !OccursAt(s, sub, j)
    ensures RFind(s, sub, lo, hi) == -1
  {
    RFindSpec(s, sub, lo, hi);
  }

  /** `"a "` followed by `n` copies of `x`: one space, at index 1, and no paragraph or sentence break. */
  function SpaceThenWord(n: nat): (s: string)
    ensures |s| == n + 2 && s[0] == 'a' && s[1] == ' '
    ensures forall i :: 2 <= i < |s| ==> s[i] == 'x'
  {
    "a " + seq(n, _ => 'x')
  }

  lemma SpaceThenWordBreaks(n: nat)
    ensures forall j: nat :: !OccursAt(SpaceThenWord(n), "\n\n", j)
    ensures forall j: nat :: !OccursAt(SpaceThenWord(n), ". ", j)
    ensures forall j: nat :: OccursAt(SpaceThenWord(n), " ", j) ==> j == 1
  {
    var s := SpaceThenWord(n);
    forall j: nat ensures !OccursAt(s, "\n\n", j) && !OccursAt(s, ". ", j) {
      if j + 2 <= |s| {
        assert s[j..j + 2][0] == s[j];
      }
    }
    forall j: nat | OccursAt(s, " ", j) ensures j == 1 {
      assert s[j..j + 1][0] == s[j];
    }
  }

  /** A window that leads to a run out of fuel leads there one window earlier too. */
  lemma LoopStepNone(text: string, start: int, maxChars: nat, overlap: nat, fuel: nat)
    requires start < |text| && start + maxChars < |text| && fuel > 0
    requires LoopAsWritten(text, BreakEnd(text, start, maxChars) - overlap, maxChars, overlap, fuel - 1) == None
    ensures LoopAsWritten(text, start, maxChars, overlap, fuel) == None
  {
  }

  /** From `start = -200` the loop cuts the empty chunk `text[-200:0]` and comes back to -200. */
  lemma {:induction false} StuckAtMinus200(n: nat, fuel: nat)
    requires n >= 15999
    ensures LoopAsWritten(SpaceThenWord(n), -200, 16000, 200, fuel) == None
  {
    var s := SpaceThenWord(n);
    if fuel > 0 {
      assert Clip(-200, |s|) == n - 198 && Clip(15800, |s|) == 15800;
      assert BreakEnd(s, -200, 16000) == 0;
      StuckAtMinus200(n, fuel - 1);
      LoopStepNone(s, -200, 16000, 200, fuel);
    }
  }

  /** The first window of `SpaceThenWord(n)` ends right after its only space. */
  lemma FirstCutAfterSpace(n: nat)
    requires n >= 15999
    ensures BreakEnd(SpaceThenWord(n), 0, 16000) == 2
  {
    var s := SpaceThenWord(n);
    SpaceThenWordBreaks(n);
    assert Clip(0, |s|) == 0 && Clip(16000, |s|) == 16000;
    NoOccurrence(s, "\n\n", 0, 16000);
    NoOccurrence(s, ". ", 0, 16000);
    assert OccursAt(s, " ", 1) by {
      assert s[1..2] == " ";
    }
    RFindSpec(s, " ", 0, 16000);
    var sp := RFind(s, " ", 0, 16000);
    assert sp == 1;
  }

  /** From `start = -198` the slice bounds cross, every search fails, and the window ends at 0. */
  lemma SecondCutAtZero(n: nat)
    requires n >= 15999
    ensures BreakEnd(SpaceThenWord(n), -198, 16000) == 0
  {
    var s := SpaceThenWord(n);
    assert Clip(-198, |s|) == n - 196 && Clip(15802, |s|) == 15802;
  }

  /**
   * With the default `max_tokens=4000, overlap=200`, the text `"a "` followed by 15999 or
   * more `x` never finishes: the first cut is after the space (end 2), so `start` becomes
   * -198, then -200, and stays there.
   */
  lemma DefaultParametersCanHang(n: nat, fuel: nat)
    requires n >= 15999
    ensures ChunksAsWritten(SpaceThenWord(n), 4000, 200, fuel) == None
  {
    var s := SpaceThenWord(n);
    if fuel > 0 {
      if fuel > 1 {
        SecondCutAtZero(n);
        StuckAtMinus200(n, fuel - 2);
        LoopStepNone(s, -198, 16000, 200, fuel - 1);
      }
      FirstCutAfterSpace(n);
      LoopStepNone(s, 0, 16000, 200, fuel);
    }
  }

  // ---------------------------------------------------------------- the corrected chunker

  /** The end of the window at `start`: the source's choice, or the full window when that would not advance. */
  function ChooseEnd(text: string, start: nat, maxChars: nat, overlap: nat): (e: nat)
    requires overlap < maxChars && start + maxChars < |text|
    ensures start + overlap < e <= start + maxChars
    ensures BreakEnd(text, start, maxChars) > start + overlap ==> e == BreakEnd(text, start, maxChars)
  {
    BreakEndInWindow(text, start, maxChars);
    var e := BreakEnd(text, start, maxChars);
    if e <= start + overlap then start + maxChars else e
  }

  /** The half-open character range `text[lo:hi]` a chunk was cut from. */
  datatype Span = Span(lo: nat, hi: nat)

  /** The text of a window: `text[lo:hi]`. */
  function Cut(text: string, sp: Span): (c: string)
    ensures sp.lo <= sp.hi <= |text| ==> c == text[sp.lo..sp.hi]
  {
    if sp.lo <= sp.hi <= |text| then text[sp.lo..sp.hi] else ""
  }

  /** The texts of the windows, in order. */
  function Cuts(text: string, spans: seq<Span>): (cs: seq<string>)
    ensures |cs| == |spans|
    ensures forall i :: 0 <= i < |spans| ==> cs[i] == Cut(text, spans[i])
  {
    seq(|spans|, i requires 0 <= i < |spans| => Cut(text, spans[i]))
  }

  /**
   * The corrected `while` loop from the state `(start, windows cut so far)`: the windows
   * of all chunks it appends, `text[start:end]` each.
   */
  function SpansLoop(text: string, start: nat, maxChars: nat, overlap: nat, spans: seq<Span>): seq<Span>
    requires overlap < maxChars && start < |text|
    decreases |text| - start
  {
    if start + maxChars >= |text| then spans + [Span(start, |text|)]
    else
      var e := ChooseEnd(text, start, maxChars, overlap);
      SpansLoop(text, e - overlap, maxChars, overlap, spans + [Span(start, e)])
  }

  /** One turn of the loop: the window up to the chosen end is appended and the next starts `overlap` before it. */
  lemma SpansLoopStep(text: string, start: nat, maxChars: nat, overlap: nat, spans: seq<Span>)
    requires overlap < maxChars && start + maxChars < |text|
    ensures var e := ChooseEnd(text, start, maxChars, overlap);
      SpansLoop(text, start, maxChars, overlap, spans) == SpansLoop(text, e - overlap, maxChars, overlap, spans + [Span(start, e)])
  {
  }

  /** The loop always cuts at least its final window. */
  lemma {:induction false} SpansLoopGrows(text: string, start: nat, maxChars: nat, overlap: nat, spans: seq<Span>)
    requires overlap < maxChars && start < |text|
    decreases |text| - start
    ensures |SpansLoop(text, start, maxChars, overlap, spans)| > |spans|
  {
    if start + maxChars < |text| {
      var e := ChooseEnd(text, start, maxChars, overlap);
      SpansLoopGrows(text, e - overlap, maxChars, overlap, spans + [Span(start, e)]);
    }
  }

  /** The windows `split_text_into_chunks` cuts: the whole text when it is short enough. */
  function ChunkSpans(text: string, maxTokens: nat, overlap: nat): seq<Span>
    requires |text| > maxTokens * 4 ==> overlap < maxTokens * 4
  {
    var maxChars := maxTokens * 4;
    if |text| <= maxChars then [Span(0, |text|)] else SpansLoop(text, 0, maxChars, overlap, [])
  }

  /** `split_text_into_chunks` with the progress correction. */
  function SplitTextIntoChunks(text: string, maxTokens: nat, overlap: nat): seq<string>
    requires |text| > maxTokens * 4 ==> overlap < maxTokens * 4
  {
    Cuts(text, ChunkSpans(text, maxTokens, overlap))
  }

  /**
   * `spans` tile a text of length `n`: the first window starts at 0, the last ends at `n`,
   * each is at most `maxChars` long, and each next one starts `overlap` characters before
   * the previous one ends and strictly after the previous one starts.
   */
  ghost predicate Tiling(n: nat, spans: seq<Span>, maxChars: nat, overlap: nat) {
    && |spans| >= 1
    && spans[0].lo == 0
    && spans[|spans| - 1].hi == n
    && (forall i :: 0 <= i < |spans| ==> spans[i].lo <= spans[i].hi <= n)
    && (forall i :: 0 <= i < |spans| ==> spans[i].hi - spans[i].lo <= maxChars)
    && (forall i, j :: 0 <= i < j < |spans| && j == i + 1 ==>
          spans[j].lo + overlap == spans[i].hi && spans[i].lo < spans[j].lo)
  }

  /** The windows cut so far, before the final one, and `start` the next window's start. */
  ghost predicate TilingSoFar(n: nat, spans: seq<Span>, start: nat, maxChars: nat, overlap: nat) {
    && (|spans| == 0 ==> start == 0)
    && (|spans| > 0 ==> spans[0].lo == 0)
    && (|spans| > 0 ==> start + overlap == spans[|spans| - 1].hi && spans[|spans| - 1].lo < start)
    && (forall i :: 0 <= i < |spans| ==> spans[i].lo <= spans[i].hi <= n)
    && (forall i :: 0 <= i < |spans| ==> spans[i].hi - spans[i].lo <= maxChars)
    && (forall i, j :: 0 <= i < j < |spans| && j == i + 1 ==>
          spans[j].lo + overlap == spans[i].hi && spans[i].lo < spans[j].lo)
  }

  lemma TilingStep(n: nat, spans: seq<Span>, start: nat, e: nat, maxChars: nat, overlap: nat)
    requires TilingSoFar(n, spans, start, maxChars, overlap)
    requires start + overlap < e <= n && e <= start + maxChars
    ensures TilingSoFar(n, spans + [Span(start, e)], e - overlap, maxChars, overlap)
  {
  }

  lemma TilingFinish(n: nat, spans: seq<Span>, start: nat, maxChars: nat, overlap: nat)
    requires TilingSoFar(n, spans, start, maxChars, overlap)
    requires start < n <= start + maxChars
    ensures Tiling(n, spans + [Span(start, n)], maxChars, overlap)
  {
  }

  /** From any state the invariant allows, the loop's windows tile the text. */
  lemma {:induction false} SpansLoopTiles(text: string, start: nat, maxChars: nat, overlap: nat, spans: seq<Span>)
    requires overlap < maxChars && start < |text|
    requires TilingSoFar(|text|, spans, start, maxChars, overlap)
    decreases |text| - start
    ensures Tiling(|text|, SpansLoop(text, start, maxChars, overlap, spans), maxChars, overlap)
  {
    if start + maxChars >= |text| {
      TilingFinish(|text|, spans, start, maxChars, overlap);
    } else {
      var e := ChooseEnd(text, start, maxChars, overlap);
      SpansLoopTilesStep(text, start, maxChars, overlap, spans);
      SpansLoopTiles(text, e - overlap, maxChars, overlap, spans + [Span(start, e)]);
    }
  }

  /** One turn of the loop keeps the tiling invariant and moves the start forward. */
  lemma SpansLoopTilesStep(text: string, start: nat, maxChars: nat, overlap: nat, spans: seq<Span>)
    requires overlap < maxChars && start + maxChars < |text|
    requires TilingSoFar(|text|, spans, start, maxChars, overlap)
    ensures var e := ChooseEnd(text, start, maxChars, overlap);
      && start < e - overlap < |text|
      && TilingSoFar(|text|, spans + [Span(start, e)], e - overlap, maxChars, overlap)
      && SpansLoop(text, start, maxChars, overlap, spans)
         == SpansLoop(text, e - overlap, maxChars, overlap, spans + [Span(start, e)])
  {
    var e := ChooseEnd(text, start, maxChars, overlap);
    SpansLoopStep(text, start, maxChars, overlap, spans);
    TilingStep(|text|, spans, start, e, maxChars, overlap);
  }

  /** The windows of `split_text_into_chunks` tile the text, a short text being one window. */
  lemma ChunkSpansTile(text: string, maxTokens: nat, overlap: nat)
    requires |text| > maxTokens * 4 ==> overlap < maxTokens * 4
    ensures Tiling(|text|, ChunkSpans(text, maxTokens, overlap), maxTokens * 4, overlap)
  {
    if |text| > maxTokens * 4 {
      SpansLoopTiles(text, 0, maxTokens * 4, overlap, []);
    }
  }

  /**
   * `ws` are the windows the corrected loop has cut when it is about to cut from `start`:
   * read backwards, the last was cut from inside the text at the chosen end, `start` lies
   * `overlap` before that end, and the windows before it are a walk up to its start; the
   * empty walk is about to cut from 0.
   */
  ghost predicate Walk(text: string, maxChars: nat, overlap: nat, ws: seq<Span>, start: nat)
    requires overlap < maxChars
    decreases |ws|
  {
    if |ws| == 0 then start == 0
    else
      var last := ws[|ws| - 1];
      && last.lo + maxChars < |text|
      && last.hi == ChooseEnd(text, last.lo, maxChars, overlap)
      && start + overlap == last.hi
      && Walk(text, maxChars, overlap, ws[..|ws| - 1], last.lo)
  }

  /** One more window cut at the chosen end extends the walk. */
  lemma WalkStep(text: string, maxChars: nat, overlap: nat, ws: seq<Span>, start: nat)
    requires overlap < maxChars && start + maxChars < |text|
    requires Walk(text, maxChars, overlap, ws, start)
    ensures var e := ChooseEnd(text, start, maxChars, overlap);
      start < e - overlap < |text| && Walk(text, maxChars, overlap, ws + [Span(start, e)], e - overlap)
  {
    assert (ws + [Span(start, ChooseEnd(text, start, maxChars, overlap))])[..|ws|] == ws;
  }

  /** The loop run from the end of a walk gives the same windows as the loop run from the start. */
  lemma {:induction false} WalkFollowsLoop(text: string, maxChars: nat, overlap: nat, ws: seq<Span>, start: nat)
    requires overlap < maxChars && start < |text|
    requires Walk(text, maxChars, overlap, ws, start)
    decreases |ws|
    ensures SpansLoop(text, start, maxChars, overlap, ws) == SpansLoop(text, 0, maxChars, overlap, [])
  {
    if |ws| > 0 {
      var prev, last := ws[..|ws| - 1], ws[|ws| - 1];
      assert prev + [Span(last.lo, last.hi)] == ws;
      calc {
        SpansLoop(text, start, maxChars, overlap, ws);
        SpansLoop(text, ChooseEnd(text, last.lo, maxChars, overlap) - overlap, maxChars, overlap,
                  prev + [Span(last.lo, ChooseEnd(text, last.lo, maxChars, overlap))]);
      == { SpansLoopStep(text, last.lo, maxChars, overlap, prev); }
        SpansLoop(text, last.lo, maxChars, overlap, prev);
      == { WalkFollowsLoop(text, maxChars, overlap, prev, last.lo); }
        SpansLoop(text, 0, maxChars, overlap, []);
      }
    }
  }

  /**
   * The chunking loop: it computes `SplitTextIntoChunks` and the windows the chunks were
   * cut from. A short text is one chunk; otherwise the windows tile the text.
   */
  method SplitTextIntoChunksLoop(text: string, maxTokens: nat, overlap: nat)
    returns (chunks: seq<string>, spans: seq<Span>)
    requires |text| > maxTokens * 4 ==> overlap < maxTokens * 4
    ensures chunks == SplitTextIntoChunks(text, maxTokens, overlap)
    ensures |text| <= maxTokens * 4 ==> chunks == [text]
    ensures chunks == Cuts(text, spans)
    ensures Tiling(|text|, spans, maxTokens * 4, overlap)
  {
    var maxChars := maxTokens * 4;
    if |text| <= maxChars {
      spans := [Span(0, |text|)];
      chunks := Cuts(text, spans);
      assert chunks[0] == text[0..|text|] == text;
      ChunkSpansTile(text, maxTokens, overlap);
      return;
    }
    spans := [];
    var start: nat := 0;
    while start + maxChars < |text|
      invariant start < |text| && overlap < maxChars
      invariant Walk(text, maxChars, overlap, spans, start)
      decreases |text| - start
    {
      var end := ChooseEnd(text, start, maxChars, overlap);
      WalkStep(text, maxChars, overlap, spans, start);
      spans := spans + [Span(start, end)];
      start := end - overlap;
    }
    WalkFollowsLoop(text, maxChars, overlap, spans, start);
    spans := spans + [Span(start, |text|)];
    chunks := Cuts(text, spans);
    ChunkSpansTile(text, maxTokens, overlap);
  }
}
