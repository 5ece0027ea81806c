/**
 * The word-level text utilities of `utils.py`: word counting (`count_words`), keyword
 * density (`calculate_keyword_density`) and frequency-ranked keyword extraction
 * (`extract_keywords_from_text`), plus the frequency ranking that the planning stage
 * reuses on keyword lists.
 */
module Words {
  import opened Wrappers
  import opened Text

  // ---------------------------------------------------------------- words

  /** Length of the run of `\w` characters at the front of `s`. */
  function RunLen(s: string): (n: nat)
    ensures n <= |s|
    ensures forall i :: 0 <= i < n ==> IsWordChar(s[i])
    ensures n < |s| ==> !IsWordChar(s[n])
  {
    if |s| > 0 && IsWordChar(s[0]) then 1 + RunLen(s[1..]) else 0
  }

  /** A non-empty string of `\w` characters. */
  predicate IsWord(w: string) {
    |w| > 0 && forall j :: 0 <= j < |w| ==> IsWordChar(w[j])
  }

  /** `re.findall(r'\b\w+\b', s)`: the maximal runs of word characters, left to right. */
  function Words(s: string): (ws: seq<string>)
    decreases |s|
    ensures forall i :: 0 <= i < |ws| ==> IsWord(ws[i])
  {
    if |s| == 0 then []
    else if !IsWordChar(s[0]) then Words(s[1..])
    else
      var n := RunLen(s);
      [s[..n]] + Words(s[n..])
  }

  /** `count_words`. */
  function CountWords(s: string): nat {
    |Words(s)|
  }

  /**
   * Reference definition of the word count: a left-to-right scan that counts the
   * positions where a word character follows a non-word character (or the start).
   */
  function RunStarts(s: string, afterWord: bool): nat
    decreases |s|
  {
    if |s| == 0 then 0
    else (if IsWordChar(s[0]) && !afterWord then 1 else 0) + RunStarts(s[1..], IsWordChar(s[0]))
  }

  /** Scanning through the rest of a word from its second character on is like starting after it. */
  lemma {:induction false} InsideRun(t: string, k: nat)
    requires k <= |t|
    requires forall i :: 0 <= i < k ==> IsWordChar(t[i])
    requires k < |t| ==> !IsWordChar(t[k])
    ensures RunStarts(t, true) == RunStarts(t[k..], false)
  {
    if k == 0 {
      assert t[k..] == t;
    } else {
      InsideRun(t[1..], k - 1);
      assert t[1..][k - 1..] == t[k..];
    }
  }

  /** `count_words(s)` is the number of maximal word-character runs of `s`. */
  lemma {:induction false} CountWordsIsRunStarts(s: string)
    ensures CountWords(s) == RunStarts(s, false)
    decreases |s|
  {
    if |s| == 0 {
    } else if !IsWordChar(s[0]) {
      CountWordsIsRunStarts(s[1..]);
    } else {
      var n := RunLen(s);
      InsideRun(s[1..], n - 1);
      assert s[1..][n - 1..] == s[n..];
      CountWordsIsRunStarts(s[n..]);
    }
  }

  /** The count is zero exactly when the text holds no word character (in particular for ""). */
  lemma {:induction false} NoWordsIffNoWordChars(s: string)
    ensures CountWords(s) == 0 <==> forall i :: 0 <= i < |s| ==> !IsWordChar(s[i])
    decreases |s|
  {
    if |s| > 0 {
      if IsWordChar(s[0]) {
        assert |Words(s)| > 0;
      } else {
        NoWordsIffNoWordChars(s[1..]);
        assert forall i :: 1 <= i < |s| ==> s[i] == s[1..][i - 1];
      }
    }
  }

  /** Lower-casing does not move word boundaries, so it does not change the word count. */
  lemma {:induction false} RunStartsLower(s: string, b: bool)
    ensures RunStarts(Lower(s), b) == RunStarts(s, b)
    decreases |s|
  {
    if |s| > 0 {
      assert Lower(s)[1..] == Lower(s[1..]);
      RunStartsLower(s[1..], IsWordChar(s[0]));
    }
  }

  // ---------------------------------------------------------------- keyword density

  /**
   * `len(re.findall(r'\b' + re.escape(kw) + r'\b', t))` counted from position `p`:
   * the leftmost match is taken and scanning resumes at its end. With an empty `kw`
   * the pattern matches the empty string at every word boundary.
   */
  function MatchesFrom(t: string, kw: string, p: nat): nat
    requires p <= |t|
    decreases |t| - p
  {
    if |kw| == 0 then
      (if Boundary(t, p) then 1 else 0) + (if p == |t| then 0 else MatchesFrom(t, kw, p + 1))
    else if p + |kw| > |t| then 0
    else if t[p..p + |kw|] == kw && Boundary(t, p) && Boundary(t, p + |kw|) then 1 + MatchesFrom(t, kw, p + |kw|)
    else MatchesFrom(t, kw, p + 1)
  }

  /** Matches of every keyword, each lower-cased, in the (already lower-cased) text. */
  function TotalMatches(t: string, keywords: seq<string>): nat {
    if |keywords| == 0 then 0 else MatchesFrom(t, Lower(keywords[0]), 0) + TotalMatches(t, keywords[1..])
  }

  /** A non-negative rational `num / den`; the Python code returns it as a float. */
  datatype Ratio = Ratio(num: nat, den: nat)

  /** `calculate_keyword_density`: keyword matches per word, as an exact ratio. */
  function KeywordDensity(text: string, keywords: seq<string>): (r: Ratio)
    ensures r.den > 0
    ensures |keywords| == 0 || |text| == 0 || CountWords(text) == 0 ==> r == Ratio(0, 1)
    ensures r.num > 0 ==> r.den == CountWords(text)
    ensures |keywords| > 0 && |text| > 0 && CountWords(text) > 0 ==> r.num == TotalMatches(Lower(text), keywords)
  {
    if |keywords| == 0 || |text| == 0 then Ratio(0, 1)
    else
      var wc := CountWords(text);
      if wc == 0 then Ratio(0, 1) else Ratio(TotalMatches(Lower(text), keywords), wc)
  }

  /** `kw` matches `t` at `p` as a whole word: it occurs there with `\b` on both sides. */
  predicate WholeMatchAt(t: string, kw: string, p: nat) {
    p + |kw| <= |t| && t[p..p + |kw|] == kw && Boundary(t, p) && Boundary(t, p + |kw|)
  }

  /** The number of positions at or after `p` where `kw` matches as a whole word, overlapping or not. */
  function WholeCount(t: string, kw: string, p: nat): nat
    decreases |t| - p
  {
    if p >= |t| then 0 else (if WholeMatchAt(t, kw, p) then 1 else 0) + WholeCount(t, kw, p + 1)
  }

  /** Sum of `WholeCount` over the lower-cased keywords. */
  function TotalWholeCount(t: string, keywords: seq<string>): nat {
    if |keywords| == 0 then 0 else WholeCount(t, Lower(keywords[0]), 0) + TotalWholeCount(t, keywords[1..])
  }

  /**
   * For a keyword made of word characters, the leftmost-first scan counts every position
   * where the keyword matches as a whole word: two such matches can never overlap.
   */
  lemma {:induction false} MatchesFromCountsWholeMatches(t: string, kw: string, p: nat)
    requires p <= |t| && IsWord(kw)
    decreases |t| - p
    ensures MatchesFrom(t, kw, p) == WholeCount(t, kw, p)
  {
    if p + |kw| > |t| {
      NoWholeMatchNearEnd(t, kw, p);
    } else if t[p..p + |kw|] == kw && Boundary(t, p) && Boundary(t, p + |kw|) {
      MatchesFromCountsWholeMatches(t, kw, p + |kw|);
      NoWholeMatchInside(t, kw, p, p + 1);
    } else {
      MatchesFromCountsWholeMatches(t, kw, p + 1);
    }
  }

  /** No whole match fits once fewer than `|kw|` characters remain. */
  lemma {:induction false} NoWholeMatchNearEnd(t: string, kw: string, p: nat)
    requires |kw| > 0 && p + |kw| > |t|
    decreases |t| - p
    ensures WholeCount(t, kw, p) == 0
  {
    if p < |t| {
      NoWholeMatchNearEnd(t, kw, p + 1);
    }
  }

  /** Inside a match of a word-character keyword there is no `\b`, so no other match starts there. */
  lemma {:induction false} NoWholeMatchInside(t: string, kw: string, p: nat, k: nat)
    requires IsWord(kw) && p + |kw| <= |t| && t[p..p + |kw|] == kw
    requires p < k <= p + |kw|
    decreases p + |kw| - k
    ensures WholeCount(t, kw, k) == WholeCount(t, kw, p + |kw|)
  {
    if k < p + |kw| {
      assert t[k - 1] == kw[k - 1 - p] && t[k] == kw[k - p];
      assert !Boundary(t, k);
      NoWholeMatchInside(t, kw, p, k + 1);
    }
  }

  /** With word-character keywords the density's numerator is the number of whole-word matches. */
  lemma {:induction false} TotalMatchesCountsWholeMatches(t: string, keywords: seq<string>)
    requires forall i :: 0 <= i < |keywords| ==> IsWord(keywords[i])
    decreases |keywords|
    ensures TotalMatches(t, keywords) == TotalWholeCount(t, keywords)
  {
    if |keywords| > 0 {
      assert IsWord(Lower(keywords[0]));
      MatchesFromCountsWholeMatches(t, Lower(keywords[0]), 0);
      TotalMatchesCountsWholeMatches(t, keywords[1..]);
    }
  }

  /**
   * With word-character keywords, the density is the number of positions of the lower-cased
   * text where some lower-cased keyword matches as a whole word, per word of the text.
   */
  lemma KeywordDensityCountsWholeMatches(text: string, keywords: seq<string>)
    requires forall i :: 0 <= i < |keywords| ==> IsWord(keywords[i])
    ensures var r := KeywordDensity(text, keywords);
      r.num == (if |keywords| == 0 || CountWords(text) == 0 then 0 else TotalWholeCount(Lower(text), keywords))
      && (r.num > 0 ==> r.den == CountWords(text))
  {
    TotalMatchesCountsWholeMatches(Lower(text), keywords);
  }

  /** Scanning with a flag that only affects the first character never counts more. */
  lemma RunStartsFlag(s: string)
    ensures RunStarts(s, true) <= RunStarts(s, false)
    ensures |s| == 0 || !IsWordChar(s[0]) ==> RunStarts(s, true) == RunStarts(s, false)
  {
  }

  /** Each whole-word match of a word-character keyword starts a distinct word. */
  lemma {:induction false} MatchesAtMostRunStarts(t: string, kw: string, p: nat)
    requires p <= |t|
    requires IsWord(kw)
    ensures MatchesFrom(t, kw, p) <= RunStarts(t[p..], WordAt(t, p - 1))
    decreases |t| - p
  {
    if p + |kw| > |t| {
    } else if t[p..p + |kw|] == kw && Boundary(t, p) && Boundary(t, p + |kw|) {
      var q := p + |kw|;
      MatchedWordStarts(t, kw, p);
      MatchesAtMostRunStarts(t, kw, q);
      assert t[q - 1] == t[p..q][|kw| - 1] == kw[|kw| - 1];
      assert IsWordChar(kw[|kw| - 1]);
      assert WordAt(t, q - 1);
      RunStartsFlag(t[q..]);
    } else {
      MatchesAtMostRunStarts(t, kw, p + 1);
      RunStartsSkip(t, p);
    }
  }

  /** A whole-word match starts one word and scanning resumes as if at the start of the text after it. */
  lemma MatchedWordStarts(t: string, kw: string, p: nat)
    requires IsWord(kw) && p + |kw| <= |t|
    requires t[p..p + |kw|] == kw && Boundary(t, p) && Boundary(t, p + |kw|)
    ensures RunStarts(t[p..], WordAt(t, p - 1)) == 1 + RunStarts(t[p + |kw|..], false)
  {
    var q := p + |kw|;
    var rest := t[p + 1..];
    forall i | 0 <= i < |kw| - 1 ensures IsWordChar(rest[i]) {
      assert rest[i] == t[p..p + |kw|][i + 1];
    }
    assert IsWordChar(t[p..p + |kw|][0]);
    InsideRun(rest, |kw| - 1);
    assert rest[|kw| - 1..] == t[q..];
    assert t[p..][1..] == rest;
  }

  /** One character scanned: the count from `p` is at least the count from `p + 1`. */
  lemma RunStartsSkip(t: string, p: nat)
    requires p < |t|
    ensures RunStarts(t[p..], WordAt(t, p - 1)) >= RunStarts(t[p + 1..], WordAt(t, p))
  {
    assert t[p..][1..] == t[p + 1..];
  }

  /**
   * With a single keyword made of word characters the density is at most one; with an
   * empty or repeated keyword it is not bounded this way (see `DensityCanExceedOne`).
   */
  lemma DensityOfOneWordAtMostOne(text: string, kw: string)
    requires IsWord(kw)
    ensures KeywordDensity(text, [kw]).num <= KeywordDensity(text, [kw]).den
  {
    var r := KeywordDensity(text, [kw]);
    if r.num > 0 {
      var lk := Lower(kw);
      assert IsWord(lk);
      assert |text| > 0 && CountWords(text) > 0;
      assert [kw][1..] == [];
      assert TotalMatches(Lower(text), [kw][1..]) == 0;
      assert r.num == MatchesFrom(Lower(text), lk, 0);
      assert Lower(text)[0..] == Lower(text);
      assert !WordAt(Lower(text), -1);
      MatchesAtMostRunStarts(Lower(text), lk, 0);
      RunStartsLower(text, false);
      CountWordsIsRunStarts(text);
    }
  }

  /** The empty keyword matches at both boundaries of one word; a repeated keyword counts twice. */
  lemma DensityCanExceedOne()
    ensures KeywordDensity("ab", [""]) == Ratio(2, 1)
    ensures KeywordDensity("ab", ["ab", "ab"]) == Ratio(2, 1)
  {
    assert Words("ab") == ["ab"] by {
      assert IsWordChar('a') && IsWordChar('b');
      assert RunLen("ab") == 2 by {
        assert "ab"[1..] == "b";
        assert "b"[1..] == "";
      }
      assert "ab"[..2] == "ab";
      assert "ab"[2..] == "";
    }
    assert Lower("ab") == "ab";
    var t := "ab";
    assert MatchesFrom(t, "", 2) == 1;
    assert MatchesFrom(t, "", 1) == 1;
    assert MatchesFrom(t, "", 0) == 2;
    assert MatchesFrom(t, "ab", 0) == 1 by {
      assert t[0..2] == "ab";
    }
  }

  // ---------------------------------------------------------------- frequency ranking

  /** Number of occurrences of `w` in `ws`. */
  function Count(ws: seq<string>, w: string): nat {
    if |ws| == 0 then 0 else (if ws[0] == w then 1 else 0) + Count(ws[1..], w)
  }

  lemma {:induction false} CountAppend(a: seq<string>, b: seq<string>, w: string)
    ensures Count(a + b, w) == Count(a, w) + Count(b, w)
  {
    if |a| > 0 {
      assert (a + b)[1..] == a[1..] + b;
      CountAppend(a[1..], b, w);
    } else {
      assert a + b == b;
    }
  }

  /** Index of the first occurrence of `w` in `ws`. */
  function FirstIndex(ws: seq<string>, w: string): (k: nat)
    requires w in ws
    ensures k < |ws| && ws[k] == w
    ensures forall j :: 0 <= j < k ==> ws[j] != w
  {
    if ws[0] == w then 0 else 1 + FirstIndex(ws[1..], w)
  }

  /** Distinct elements of `ws` in order of first occurrence: the key order of a Python dict filled from `ws`. */
  function Distinct(ws: seq<string>): (d: seq<string>)
    ensures forall i :: 0 <= i < |d| ==> d[i] in ws
    ensures forall w :: w in ws ==> w in d
    ensures forall i, j :: 0 <= i < j < |d| ==> FirstIndex(ws, d[i]) < FirstIndex(ws, d[j])
  {
    if |ws| == 0 then []
    else
      var init := ws[..|ws| - 1];
      var last := ws[|ws| - 1];
      var d0 := Distinct(init);
      assert ws == init + [last];
      assert forall x :: x in init ==> FirstIndex(ws, x) == FirstIndex(init, x);
      if last in d0 then d0 else d0 + [last]
  }

  /** A dictionary entry `(word, count)` of the frequency table, with the word's first position. */
  datatype Entry = Entry(word: string, freq: nat, first: nat)

  /** `a` comes before `b` after a stable sort by descending frequency of entries listed by `first`. */
  predicate Before(a: Entry, b: Entry) {
    a.freq > b.freq || (a.freq == b.freq && a.first < b.first)
  }

  predicate StrictlySorted(es: seq<Entry>) {
    forall i, j :: 0 <= i < j < |es| ==> Before(es[i], es[j])
  }

  /** Insertion of one entry into a sorted list, after every entry that comes before it. */
  function Insert(es: seq<Entry>, e: Entry): (r: seq<Entry>)
    ensures |r| == |es| + 1
    ensures forall x :: x in r <==> x in es || x == e
  {
    if |es| == 0 then [e]
    else if Before(es[0], e) then
      assert es == [es[0]] + es[1..];
      [es[0]] + Insert(es[1..], e)
    else
      [e] + es
  }

  /** Inserting an entry whose position differs from all others keeps the list strictly sorted. */
  lemma {:induction false} InsertSorted(es: seq<Entry>, e: Entry)
    requires StrictlySorted(es)
    requires forall i :: 0 <= i < |es| ==> es[i].first != e.first
    ensures StrictlySorted(Insert(es, e))
  {
    if |es| > 0 {
      if Before(es[0], e) {
        var tail := es[1..];
        InsertSorted(tail, e);
        var r' := Insert(tail, e);
        forall j | 0 <= j < |r'| ensures Before(es[0], r'[j]) {
          assert r'[j] in r';
        }
      } else {
        assert Before(e, es[0]);
      }
    }
  }

  /** `sorted(entries, key=freq, reverse=True)`, built by stable insertion. */
  function SortByFreq(es: seq<Entry>): (r: seq<Entry>)
    ensures |r| == |es|
    ensures forall x :: x in r <==> x in es
  {
    if |es| == 0 then []
    else
      var init := es[..|es| - 1];
      assert es == init + [es[|es| - 1]];
      Insert(SortByFreq(init), es[|es| - 1])
  }

  /** Entries listed by increasing first position come out of the sort strictly sorted. */
  lemma {:induction false} SortByFreqSorted(es: seq<Entry>)
    requires forall i, j :: 0 <= i < j < |es| ==> es[i].first < es[j].first
    ensures StrictlySorted(SortByFreq(es))
  {
    if |es| > 0 {
      var init := es[..|es| - 1];
      var last := es[|es| - 1];
      SortByFreqSorted(init);
      var r0 := SortByFreq(init);
      forall i | 0 <= i < |r0| ensures r0[i].first != last.first {
        assert r0[i] in init;
        var k :| 0 <= k < |init| && init[k] == r0[i];
        assert es[k] == r0[i];
      }
      InsertSorted(r0, last);
    }
  }

  /** `x` is the frequency-table entry of a word of `ws`. */
  predicate Describes(ws: seq<string>, x: Entry) {
    x.word in ws && x.freq == Count(ws, x.word) && x.first == FirstIndex(ws, x.word)
  }

  /** The frequency table of `ws`: one entry per distinct element, in first-occurrence order. */
  function Entries(ws: seq<string>): (es: seq<Entry>)
    ensures forall i :: 0 <= i < |es| ==> Describes(ws, es[i])
    ensures forall w :: w in ws ==> exists i :: 0 <= i < |es| && es[i].word == w
    ensures forall i, j :: 0 <= i < j < |es| ==> es[i].first < es[j].first
  {
    var d := Distinct(ws);
    var es := seq(|d|, i requires 0 <= i < |d| => Entry(d[i], Count(ws, d[i]), FirstIndex(ws, d[i])));
    assert forall w :: w in ws ==> exists i :: 0 <= i < |es| && es[i].word == w by {
      forall w | w in ws ensures exists i :: 0 <= i < |es| && es[i].word == w {
        var i :| 0 <= i < |d| && d[i] == w;
        assert es[i].word == w;
      }
    }
    es
  }

  /** The words of a list of entries. */
  function WordsOf(es: seq<Entry>): (ws: seq<string>)
    ensures |ws| == |es|
    ensures forall i :: 0 <= i < |es| ==> ws[i] == es[i].word
  {
    seq(|es|, i requires 0 <= i < |es| => es[i].word)
  }

  /**
   * The first `k` elements of `ws` by descending count, ties in first-occurrence order:
   * `[w for w, _ in sorted(freq.items(), key=count, reverse=True)[:k]]`.
   */
  function TopByFrequency(ws: seq<string>, k: nat): seq<string> {
    var sorted := SortByFreq(Entries(ws));
    WordsOf(sorted[..Min(k, |sorted|)])
  }

  /** `a` ranks ahead of `b` in `ws`: more occurrences, or as many and an earlier first occurrence. */
  predicate RanksBefore(ws: seq<string>, a: string, b: string)
    requires a in ws && b in ws
  {
    Count(ws, a) > Count(ws, b) || (Count(ws, a) == Count(ws, b) && FirstIndex(ws, a) < FirstIndex(ws, b))
  }

  /** The sorted frequency table: strictly ordered, and exactly the table's entries. */
  lemma SortedTable(ws: seq<string>)
    ensures var sorted := SortByFreq(Entries(ws));
      && StrictlySorted(sorted)
      && (forall i :: 0 <= i < |sorted| ==> Describes(ws, sorted[i]))
      && (forall w :: w in ws ==> exists m :: 0 <= m < |sorted| && sorted[m].word == w)
  {
    var es := Entries(ws);
    var sorted := SortByFreq(es);
    SortByFreqSorted(es);
    forall i | 0 <= i < |sorted| ensures Describes(ws, sorted[i]) {
      assert sorted[i] in es;
    }
    forall w | w in ws ensures exists m :: 0 <= m < |sorted| && sorted[m].word == w {
      var i :| 0 <= i < |es| && es[i].word == w;
      assert es[i] in sorted;
    }
  }

  /** In a sorted table, earlier entries are other words that rank ahead. */
  lemma SortedTableRanks(ws: seq<string>, sorted: seq<Entry>, i: nat, j: nat)
    requires StrictlySorted(sorted)
    requires forall m :: 0 <= m < |sorted| ==> Describes(ws, sorted[m])
    requires i < j < |sorted|
    ensures sorted[i].word in ws && sorted[j].word in ws
    ensures sorted[i].word != sorted[j].word && RanksBefore(ws, sorted[i].word, sorted[j].word)
  {
    assert Before(sorted[i], sorted[j]);
    assert Describes(ws, sorted[i]) && Describes(ws, sorted[j]);
  }

  /** A prefix of a sorted table lists distinct words in ranking order, ahead of every word after it. */
  lemma SortedPrefixRanks(ws: seq<string>, sorted: seq<Entry>, n: nat)
    requires StrictlySorted(sorted)
    requires forall m :: 0 <= m < |sorted| ==> Describes(ws, sorted[m])
    requires forall w :: w in ws ==> exists m :: 0 <= m < |sorted| && sorted[m].word == w
    requires n <= |sorted|
    ensures var top := WordsOf(sorted[..n]);
      && (forall i :: 0 <= i < |top| ==> top[i] in ws)
      && (forall i, j :: 0 <= i < j < |top| ==> top[i] != top[j] && RanksBefore(ws, top[i], top[j]))
      && (forall w :: w in ws && w !in top ==>
            n < |sorted| && forall i :: 0 <= i < |top| ==> RanksBefore(ws, top[i], w))
  {
    var top := WordsOf(sorted[..n]);
    assert forall i :: 0 <= i < n ==> top[i] == sorted[i].word;
    forall i, j | 0 <= i < j < n ensures top[i] != top[j] && RanksBefore(ws, top[i], top[j]) {
      SortedTableRanks(ws, sorted, i, j);
    }
    assert forall m :: 0 <= m < n ==> sorted[m].word in top;
    forall w | w in ws && w !in top
      ensures n < |sorted| && forall i :: 0 <= i < |top| ==> RanksBefore(ws, top[i], w)
    {
      var m :| 0 <= m < |sorted| && sorted[m].word == w;
      assert n <= m;
      forall i | 0 <= i < n ensures RanksBefore(ws, top[i], w) {
        SortedTableRanks(ws, sorted, i, m);
      }
    }
  }

  /**
   * The ranking keeps at most `k` distinct elements of `ws`, in ranking order, and leaves
   * out an element only when `k` elements that rank ahead of it were kept.
   */
  lemma TopByFrequencySpec(ws: seq<string>, k: nat)
    ensures var top := TopByFrequency(ws, k);
      && |top| <= k
      && (forall i :: 0 <= i < |top| ==> top[i] in ws)
      && (forall i, j :: 0 <= i < j < |top| ==> top[i] != top[j] && RanksBefore(ws, top[i], top[j]))
      && (forall w :: w in ws && w !in top ==>
            |top| == k && forall i :: 0 <= i < |top| ==> RanksBefore(ws, top[i], w))
  {
    var sorted := SortByFreq(Entries(ws));
    SortedTable(ws);
    SortedPrefixRanks(ws, sorted, Min(k, |sorted|));
  }

  // ---------------------------------------------------------------- keyword extraction

  /** The stop-word list of `extract_keywords_from_text`. */
  const StopWords: set<string> := {
    "a", "an", "the", "and", "or", "but", "is", "are", "was", "were",
    "to", "of", "in", "for", "with", "on", "at", "by", "from", "about",
    "as", "into", "like", "through", "after", "over", "between", "out",
    "this", "that", "these", "those", "there", "here", "how", "why",
    "when", "where", "who", "whom", "which", "what", "would", "could",
    "should", "will", "shall", "may", "might", "must", "can", "then"
  }

  /** A token that is counted: longer than three characters and not a stop word. */
  predicate IsCandidate(w: string) {
    |w| > 3 && w !in StopWords
  }

  /** The counted tokens, in text order. */
  function Candidates(ws: seq<string>): (cs: seq<string>)
    ensures forall i :: 0 <= i < |cs| ==> cs[i] in ws && IsCandidate(cs[i])
    ensures forall w :: IsCandidate(w) ==> Count(cs, w) == Count(ws, w)
  {
    if |ws| == 0 then []
    else if IsCandidate(ws[0]) then [ws[0]] + Candidates(ws[1..])
    else Candidates(ws[1..])
  }

  /**
   * The counted tokens keep their text order: of two of them, the one that occurs first
   * among the counted tokens is the one that occurs first in the text.
   */
  lemma {:induction false} CandidatesKeepOrder(ws: seq<string>, a: string, b: string)
    requires a in Candidates(ws) && b in Candidates(ws)
    decreases |ws|
    ensures a in ws && b in ws
    ensures FirstIndex(Candidates(ws), a) < FirstIndex(Candidates(ws), b) <==> FirstIndex(ws, a) < FirstIndex(ws, b)
  {
    var cs := Candidates(ws);
    assert cs[FirstIndex(cs, a)] == a && cs[FirstIndex(cs, b)] == b;
    var rest := Candidates(ws[1..]);
    if IsCandidate(ws[0]) {
      assert cs == [ws[0]] + rest;
      if a != ws[0] && b != ws[0] {
        assert a in rest && b in rest;
        CandidatesKeepOrder(ws[1..], a, b);
      }
    } else {
      assert cs == rest;
      assert a != ws[0] && b != ws[0];
      CandidatesKeepOrder(ws[1..], a, b);
    }
  }

  /** `extract_keywords_from_text(text, max_keywords)` for a non-negative `max_keywords`. */
  function ExtractKeywords(text: string, maxKeywords: nat): seq<string> {
    TopByFrequency(Candidates(Words(Lower(text))), maxKeywords)
  }

  /**
   * Extracted keywords: at most `maxKeywords`, distinct, each a counted token of the
   * lower-cased text; ordered by descending token count with ties in first-occurrence
   * order; any counted token left out is outranked by all `maxKeywords` kept ones.
   */
  lemma ExtractKeywordsSpec(text: string, maxKeywords: nat)
    ensures var toks := Words(Lower(text)); var cs := Candidates(toks);
      var kws := ExtractKeywords(text, maxKeywords);
      && |kws| <= maxKeywords
      && (forall i :: 0 <= i < |kws| ==> kws[i] in toks && IsCandidate(kws[i]) && kws[i] in cs)
      && (forall i :: 0 <= i < |kws| ==> Count(cs, kws[i]) == Count(toks, kws[i]))
      && (forall i, j :: 0 <= i < j < |kws| ==> kws[i] != kws[j] && RanksBefore(cs, kws[i], kws[j]))
      && (forall w :: w in cs && w !in kws ==>
            |kws| == maxKeywords && forall i :: 0 <= i < |kws| ==> RanksBefore(cs, kws[i], w))
  {
    TopByFrequencySpec(Candidates(Words(Lower(text))), maxKeywords);
  }
}
