/**
 * The review agent of `agents/review_agent.py`: two model passes over a draft, accepted
 * only when the final text keeps at least 90% of the original word count, and the
 * regular-expression clean-up `_fix_basic_issues` used whenever the passes are discarded.
 */
module Review {
  import opened Wrappers
  import opened Text
  import opened Words

  // ---------------------------------------------------------------- typo table

  /**
   * `re.sub(r'\b' + re.escape(w) + r'\b', rep, s, flags=re.IGNORECASE)` scanned from `i`:
   * at each position either the whole-word pattern matches (the match is replaced and
   * scanning resumes after it) or one character is copied.
   */
  function SubWord(s: string, w: string, rep: string, i: nat): string
    requires |w| > 0
    decreases |s| - i
  {
    if i >= |s| then ""
    else if WholeWordAt(s, w, i) then rep + SubWord(s, w, rep, i + |w|)
    else [s[i]] + SubWord(s, w, rep, i + 1)
  }

  /** A stretch with no match in it is copied unchanged. */
  lemma {:induction false} SubWordCopies(s: string, w: string, rep: string, i: nat, j: nat)
    requires |w| > 0 && i <= j <= |s|
    requires forall k: nat :: i <= k < j ==> !WholeWordAt(s, w, k)
    decreases j - i
    ensures SubWord(s, w, rep, i) == s[i..j] + SubWord(s, w, rep, j)
  {
    if i < j {
      SubWordCopies(s, w, rep, i + 1, j);
      SubWordStep(s, w, rep, i);
      var tail := SubWord(s, w, rep, j);
      assert s[i..j] == [s[i]] + s[i + 1..j];
      assert [s[i]] + (s[i + 1..j] + tail) == ([s[i]] + s[i + 1..j]) + tail;
    }
  }

  /**
   * The substitution agrees with `re.search`: the text up to the leftmost match is copied,
   * the match becomes `rep`, and the rest is substituted in turn; with no match the text
   * is left as it is.
   */
  lemma SubWordLeftmost(s: string, w: string, rep: string, i: nat)
    requires |w| > 0 && i <= |s|
    ensures FirstWholeWord(s, w, i).None? ==> SubWord(s, w, rep, i) == s[i..]
    ensures FirstWholeWord(s, w, i).Some? ==>
      var j := FirstWholeWord(s, w, i).value;
      SubWord(s, w, rep, i) == s[i..j] + rep + SubWord(s, w, rep, j + |w|)
  {
    FirstWholeWordSpec(s, w, i);
    var f := FirstWholeWord(s, w, i);
    if f.None? {
      SubWordNoMatch(s, w, rep, i);
    } else {
      SubWordAtMatch(s, w, rep, i, f.value);
    }
  }

  /** With no match from `i` on, the rest is copied. */
  lemma SubWordNoMatch(s: string, w: string, rep: string, i: nat)
    requires |w| > 0 && i <= |s|
    requires forall j: nat :: i <= j ==> !WholeWordAt(s, w, j)
    ensures SubWord(s, w, rep, i) == s[i..]
  {
    SubWordCopies(s, w, rep, i, |s|);
    assert s[i..|s|] == s[i..];
  }

  /** Up to the first match the text is copied; the match itself becomes `rep`. */
  lemma SubWordAtMatch(s: string, w: string, rep: string, i: nat, j: nat)
    requires |w| > 0 && i <= j && WholeWordAt(s, w, j)
    requires forall k: nat :: i <= k < j ==> !WholeWordAt(s, w, k)
    ensures SubWord(s, w, rep, i) == s[i..j] + rep + SubWord(s, w, rep, j + |w|)
  {
    SubWordCopies(s, w, rep, i, j);
    var rest := SubWord(s, w, rep, j + |w|);
    assert SubWord(s, w, rep, j) == rep + rest;
    assert s[i..j] + (rep + rest) == s[i..j] + rep + rest;
  }

  /** A position that starts no match is copied. */
  lemma SubWordStep(s: string, w: string, rep: string, i: nat)
    requires |w| > 0 && i < |s| && !WholeWordAt(s, w, i)
    ensures SubWord(s, w, rep, i) == [s[i]] + SubWord(s, w, rep, i + 1)
  {
  }

  /** The typo dictionary, in its insertion order; each key is replaced by its correction. */
  const Typos: seq<(string, string)> := [
    ("teh ", "the "),
    ("adn ", "and "),
    ("waht ", "what "),
    ("taht ", "that "),
    ("thier ", "their "),
    ("recieve", "receive"),
    ("alot ", "a lot "),
    ("its ", "it's "),
    ("occurr", "occur"),
    ("managment", "management"),
    ("accomodat", "accommodat"),
    ("enviroment", "environment")
  ]

  /** Apply the substitutions of `table` one after the other, each over the whole text. */
  function FixTypos(s: string, table: seq<(string, string)>): string
    requires forall k :: 0 <= k < |table| ==> |table[k].0| > 0
    decreases |table|
  {
    if |table| == 0 then s
    else FixTypos(SubWord(s, table[0].0, table[0].1, 0), table[1..])
  }

  /** Substituting a word that has no whole-word match anywhere changes nothing. */
  lemma SubWordAbsent(s: string, w: string, rep: string)
    requires |w| > 0
    requires forall j: nat :: !WholeWordAt(s, w, j)
    ensures SubWord(s, w, rep, 0) == s
  {
    FirstWholeWordSpec(s, w, 0);
    SubWordLeftmost(s, w, rep, 0);
  }

  // ---------------------------------------------------------------- forbidden patterns

  /** `p` occurs nowhere in `s`, stated position by position from the left. */
  predicate Free(s: string, p: string)
    decreases |s|
  {
    |s| == 0 || (!StartsWith(s, p) && Free(s[1..], p))
  }

  /** The occurrences in `s` are the one at its head and those in its tail. */
  lemma ContainsCons(s: string, p: string)
    requires |s| > 0
    ensures Contains(s, p) <==> StartsWith(s, p) || Contains(s[1..], p)
  {
    ContainsIff(s, p);
    ContainsIff(s[1..], p);
    if Contains(s, p) {
      var j: nat :| OccursAt(s, p, j);
      if j > 0 {
        assert s[1..][j - 1..j - 1 + |p|] == s[j..j + |p|];
        assert OccursAt(s[1..], p, j - 1);
      } else {
        assert s[..|p|] == s[0..|p|];
      }
    }
    if StartsWith(s, p) {
      assert OccursAt(s, p, 0);
    }
    if Contains(s[1..], p) {
      var j: nat :| OccursAt(s[1..], p, j);
      assert s[1..][j..j + |p|] == s[j + 1..j + 1 + |p|];
      assert OccursAt(s, p, j + 1);
    }
  }

  /** `Free` is exactly Python's `p not in s`. */
  lemma {:induction false} FreeIff(s: string, p: string)
    requires |p| > 0
    decreases |s|
    ensures Free(s, p) <==> !Contains(s, p)
  {
    if |s| > 0 {
      ContainsCons(s, p);
      FreeIff(s[1..], p);
    }
  }

  /** No `.` is immediately followed by an ASCII letter. */
  predicate NoPeriodLetter(s: string)
    decreases |s|
  {
    |s| < 2 || (!(s[0] == '.' && IsAsciiLetter(s[1])) && NoPeriodLetter(s[1..]))
  }

  /** `s` with every `c` removed: what a step that only deletes or inserts `c` must keep. */
  function Without(s: string, c: char): (r: string)
    ensures c !in r
    ensures |r| <= |s|
  {
    if |s| == 0 then "" else (if s[0] == c then "" else [s[0]]) + Without(s[1..], c)
  }

  // ---------------------------------------------------------------- `re.sub(r' {2,}', ' ', s)`

  /** Every run of two or more spaces becomes one space. */
  function CollapseSpaces(s: string): string
    decreases |s|
  {
    if |s| == 0 then ""
    else if StartsWith(s, "  ") then CollapseSpaces(s[1..])
    else [s[0]] + CollapseSpaces(s[1..])
  }

  lemma {:induction false} CollapseSpacesHead(s: string)
    requires |s| > 0
    decreases |s|
    ensures |CollapseSpaces(s)| > 0 && CollapseSpaces(s)[0] == s[0]
  {
    if StartsWith(s, "  ") {
      CollapseSpacesHead(s[1..]);
    }
  }

  /** The result has no two consecutive spaces. */
  lemma {:induction false} CollapseSpacesFree(s: string)
    decreases |s|
    ensures Free(CollapseSpaces(s), "  ")
  {
    if |s| > 0 {
      CollapseSpacesFree(s[1..]);
      var t := CollapseSpaces(s[1..]);
      if !StartsWith(s, "  ") {
        var r := [s[0]] + t;
        assert r[1..] == t;
        if |s| > 1 {
          CollapseSpacesHead(s[1..]);
          assert s[..2] == [s[0], s[1]];
          assert r[..2] == [s[0], t[0]];
        }
      }
    }
  }

  /** Text without a double space is left unchanged. */
  lemma {:induction false} CollapseSpacesFixes(s: string)
    requires Free(s, "  ")
    decreases |s|
    ensures CollapseSpaces(s) == s
  {
    if |s| > 0 {
      CollapseSpacesFixes(s[1..]);
      assert s == [s[0]] + s[1..];
    }
  }

  lemma CollapseSpacesIdempotent(s: string)
    ensures CollapseSpaces(CollapseSpaces(s)) == CollapseSpaces(s)
  {
    CollapseSpacesFree(s);
    CollapseSpacesFixes(CollapseSpaces(s));
  }

  /** Only spaces are removed: everything else survives, in order. */
  lemma {:induction false} CollapseSpacesKeepsText(s: string)
    decreases |s|
    ensures Without(CollapseSpaces(s), ' ') == Without(s, ' ')
  {
    if |s| > 0 {
      CollapseSpacesKeepsText(s[1..]);
      if !StartsWith(s, "  ") {
        var r := [s[0]] + CollapseSpaces(s[1..]);
        assert r[0] == s[0] && r[1..] == CollapseSpaces(s[1..]);
      }
    }
  }

  // ---------------------------------------------------------------- `re.sub(r'\n{3,}', '\n\n', s)`

  /** Every run of three or more newlines becomes exactly two. */
  function CollapseNewlines(s: string): string
    decreases |s|
  {
    if |s| == 0 then ""
    else if StartsWith(s, "\n\n\n") then CollapseNewlines(s[1..])
    else [s[0]] + CollapseNewlines(s[1..])
  }

  lemma {:induction false} CollapseNewlinesHead(s: string)
    requires |s| > 0
    decreases |s|
    ensures |CollapseNewlines(s)| > 0 && CollapseNewlines(s)[0] == s[0]
  {
    if StartsWith(s, "\n\n\n") {
      CollapseNewlinesHead(s[1..]);
    }
  }

  /** The first two characters survive too, unless the text opens with a run of newlines. */
  lemma CollapseNewlinesHead2(s: string)
    requires |s| > 1
    ensures |CollapseNewlines(s)| > 1 && CollapseNewlines(s)[1] == s[1]
  {
    if StartsWith(s, "\n\n\n") {
      assert s[..3] == s[0..3];
      CollapseNewlinesDropStep(s[1..]);
    } else {
      CollapseNewlinesHead(s[1..]);
    }
  }

  lemma {:induction false} CollapseNewlinesDropStep(s: string)
    requires |s| > 1 && s[0] == '\n' && s[1] == '\n'
    decreases |s|
    ensures |CollapseNewlines(s)| > 1 && CollapseNewlines(s)[0] == '\n' && CollapseNewlines(s)[1] == '\n'
  {
    if StartsWith(s, "\n\n\n") {
      assert s[..3] == s[0..3];
      CollapseNewlinesDropStep(s[1..]);
    } else {
      CollapseNewlinesHead(s[1..]);
    }
  }

  /** The result has no run of three newlines. */
  lemma {:induction false} CollapseNewlinesFree(s: string)
    decreases |s|
    ensures Free(CollapseNewlines(s), "\n\n\n")
  {
    if |s| > 0 {
      CollapseNewlinesFree(s[1..]);
      var t := CollapseNewlines(s[1..]);
      if !StartsWith(s, "\n\n\n") {
        var r := [s[0]] + t;
        assert r[1..] == t;
        if |s| > 2 {
          CollapseNewlinesHead(s[1..]);
          CollapseNewlinesHead2(s[1..]);
          assert s[1..][1] == s[2];
          assert s[..3] == [s[0], s[1], s[2]];
          assert r[..3] == [s[0], t[0], t[1]];
        } else if |s| == 2 {
          CollapseNewlinesHead(s[1..]);
          assert |t| == 1;
        } else {
          assert |t| == 0;
        }
      }
    }
  }

  lemma {:induction false} CollapseNewlinesFixes(s: string)
    requires Free(s, "\n\n\n")
    decreases |s|
    ensures CollapseNewlines(s) == s
  {
    if |s| > 0 {
      CollapseNewlinesFixes(s[1..]);
      assert s == [s[0]] + s[1..];
    }
  }

  lemma CollapseNewlinesIdempotent(s: string)
    ensures CollapseNewlines(CollapseNewlines(s)) == CollapseNewlines(s)
  {
    CollapseNewlinesFree(s);
    CollapseNewlinesFixes(CollapseNewlines(s));
  }

  /** Only newlines are removed. */
  lemma {:induction false} CollapseNewlinesKeepsText(s: string)
    decreases |s|
    ensures Without(CollapseNewlines(s), '\n') == Without(s, '\n')
  {
    if |s| > 0 {
      CollapseNewlinesKeepsText(s[1..]);
      if !StartsWith(s, "\n\n\n") {
        var r := [s[0]] + CollapseNewlines(s[1..]);
        assert r[0] == s[0] && r[1..] == CollapseNewlines(s[1..]);
      }
    }
  }

  /** Removing newlines cannot make two spaces meet. */
  lemma {:induction false} CollapseNewlinesKeepsSpaces(s: string)
    requires Free(s, "  ")
    decreases |s|
    ensures Free(CollapseNewlines(s), "  ")
  {
    if |s| > 0 {
      CollapseNewlinesKeepsSpaces(s[1..]);
      var t := CollapseNewlines(s[1..]);
      if !StartsWith(s, "\n\n\n") {
        var r := [s[0]] + t;
        assert r[1..] == t;
        if |s| > 1 {
          CollapseNewlinesHead(s[1..]);
          assert s[..2] == [s[0], s[1]];
          assert r[..2] == [s[0], t[0]];
        }
      }
    }
  }

  // ---------------------------------------------------------------- `re.sub(r'\.(?=[A-Za-z])', '. ', s)`

  /** A space is inserted after every period that is directly followed by a letter. */
  function SpaceAfterPeriods(s: string): string
    decreases |s|
  {
    if |s| == 0 then ""
    else if |s| >= 2 && s[0] == '.' && IsAsciiLetter(s[1]) then ". " + SpaceAfterPeriods(s[1..])
    else [s[0]] + SpaceAfterPeriods(s[1..])
  }

  lemma SpaceAfterPeriodsHead(s: string)
    requires |s| > 0
    ensures |SpaceAfterPeriods(s)| > 0 && SpaceAfterPeriods(s)[0] == s[0]
  {
  }

  /** The result has no period directly followed by a letter. */
  lemma {:induction false} SpaceAfterPeriodsClean(s: string)
    decreases |s|
    ensures NoPeriodLetter(SpaceAfterPeriods(s))
  {
    if |s| > 0 {
      SpaceAfterPeriodsClean(s[1..]);
      var t := SpaceAfterPeriods(s[1..]);
      if |s| >= 2 && s[0] == '.' && IsAsciiLetter(s[1]) {
        var u := " " + t;
        assert u[0] == ' ' && u[1..] == t;
        assert NoPeriodLetter(u);
        var r := ". " + t;
        assert r == ['.'] + u;
        assert r[0] == '.' && r[1] == ' ' && r[1..] == u;
        assert !IsAsciiLetter(' ');
      } else {
        var r := [s[0]] + t;
        assert r[1..] == t;
        if |s| >= 2 {
          SpaceAfterPeriodsHead(s[1..]);
        }
      }
    }
  }

  lemma {:induction false} SpaceAfterPeriodsFixes(s: string)
    requires NoPeriodLetter(s)
    decreases |s|
    ensures SpaceAfterPeriods(s) == s
  {
    if |s| > 0 {
      SpaceAfterPeriodsFixes(s[1..]);
      assert s == [s[0]] + s[1..];
    }
  }

  lemma SpaceAfterPeriodsIdempotent(s: string)
    ensures SpaceAfterPeriods(SpaceAfterPeriods(s)) == SpaceAfterPeriods(s)
  {
    SpaceAfterPeriodsClean(s);
    SpaceAfterPeriodsFixes(SpaceAfterPeriods(s));
  }

  /** Only spaces are inserted. */
  lemma {:induction false} SpaceAfterPeriodsKeepsText(s: string)
    decreases |s|
    ensures Without(SpaceAfterPeriods(s), ' ') == Without(s, ' ')
  {
    if |s| > 0 {
      SpaceAfterPeriodsKeepsText(s[1..]);
      var t := SpaceAfterPeriods(s[1..]);
      if |s| >= 2 && s[0] == '.' && IsAsciiLetter(s[1]) {
        var r := ". " + t;
        assert r[0] == '.' && r[1..] == " " + t;
        assert (" " + t)[0] == ' ' && (" " + t)[1..] == t;
      } else {
        var r := [s[0]] + t;
        assert r[0] == s[0] && r[1..] == t;
      }
    }
  }

  /** The inserted space always sits before a letter, so it never meets another space. */
  lemma {:induction false} SpaceAfterPeriodsKeepsSpaces(s: string)
    requires Free(s, "  ")
    decreases |s|
    ensures Free(SpaceAfterPeriods(s), "  ")
  {
    if |s| > 0 {
      SpaceAfterPeriodsKeepsSpaces(s[1..]);
      var t := SpaceAfterPeriods(s[1..]);
      if |s| >= 2 && s[0] == '.' && IsAsciiLetter(s[1]) {
        SpaceAfterPeriodsHead(s[1..]);
        var r := ". " + t;
        assert r[1..] == " " + t;
        assert (" " + t)[1..] == t;
        assert r[..2] == ". ";
        assert (" " + t)[..2] == [' ', s[1]];
      } else {
        var r := [s[0]] + t;
        assert r[1..] == t;
        if |s| > 1 {
          SpaceAfterPeriodsHead(s[1..]);
          assert s[..2] == [s[0], s[1]];
          assert r[..2] == [s[0], t[0]];
        }
      }
    }
  }

  /** Inserting spaces cannot create a run of three newlines. */
  lemma {:induction false} SpaceAfterPeriodsKeepsNewlines(s: string)
    requires Free(s, "\n\n\n")
    decreases |s|
    ensures Free(SpaceAfterPeriods(s), "\n\n\n")
  {
    if |s| > 0 {
      SpaceAfterPeriodsKeepsNewlines(s[1..]);
      var t := SpaceAfterPeriods(s[1..]);
      if |s| >= 2 && s[0] == '.' && IsAsciiLetter(s[1]) {
        var r := ". " + t;
        assert r[1..] == " " + t;
        assert (" " + t)[1..] == t;
        assert !StartsWith(r, "\n\n\n") by { if |r| >= 3 { assert r[..3][0] == '.'; } }
        assert !StartsWith(" " + t, "\n\n\n") by { if |t| >= 2 { assert (" " + t)[..3][0] == ' '; } }
      } else {
        var r := [s[0]] + t;
        assert r[1..] == t;
        if |s| > 2 && s[0] == '\n' && s[1] == '\n' {
          SpaceAfterPeriodsHead(s[1..]);
          SpaceAfterPeriodsHead(s[2..]);
          assert t == [s[1]] + SpaceAfterPeriods(s[2..]);
          assert s[..3] == [s[0], s[1], s[2]];
          assert r[..3] == [s[0], s[1], s[2]];
        } else if |s| == 2 {
          assert s[1..] == [s[1]] && s[1..][1..] == [];
          assert t == [s[1]] + SpaceAfterPeriods([]);
        } else if |s| > 2 {
          SpaceAfterPeriodsHead(s[1..]);
          assert r[..3][0] == s[0] && r[..3][1] == s[1];
        }
      }
    }
  }

  // ---------------------------------------------------------------- `_fix_basic_issues`

  /** Typos, then spaces, then blank lines, then sentence spacing. */
  function FixBasicIssues(content: string): string {
    SpaceAfterPeriods(CollapseNewlines(CollapseSpaces(FixTypos(content, Typos))))
  }

  /** The clean-up leaves no double space, no run of three newlines and no period touching a letter. */
  lemma FixBasicIssuesClean(content: string)
    ensures var r := FixBasicIssues(content);
      && !Contains(r, "  ")
      && !Contains(r, "\n\n\n")
      && NoPeriodLetter(r)
  {
    var a := CollapseSpaces(FixTypos(content, Typos));
    var b := CollapseNewlines(a);
    CollapseSpacesFree(FixTypos(content, Typos));
    CollapseNewlinesKeepsSpaces(a);
    CollapseNewlinesFree(a);
    SpaceAfterPeriodsKeepsSpaces(b);
    SpaceAfterPeriodsKeepsNewlines(b);
    SpaceAfterPeriodsClean(b);
    FreeIff(SpaceAfterPeriods(b), "  ");
    FreeIff(SpaceAfterPeriods(b), "\n\n\n");
  }

  // ---------------------------------------------------------------- `review_content`

  /** The two prompts the agent sends. */
  datatype Request = ContentReview(content: string) | FinalCheck(content: string)

  /** The text returned and the requests sent, in order. */
  datatype Reviewed = Reviewed(text: string, requests: seq<Request>)

  /**
   * `review_content(content)`; `llm` answers a request or fails (None). The final text is
   * kept unless it has fewer than 90% of the original words (`final < 0.9 * initial`,
   * compared exactly as `10 * final < 9 * initial`); a failure or a shrunken text falls
   * back to the cleaned-up original.
   */
  function ReviewContent(content: string, llm: Request -> Option<string>): (r: Reviewed)
    ensures 1 <= |r.requests| <= 2 && r.requests[0] == ContentReview(content)
    ensures |r.requests| == 2 <==> llm(ContentReview(content)).Some?
    ensures |r.requests| == 2 ==> r.requests[1] == FinalCheck(llm(ContentReview(content)).value)
    ensures r.text == FixBasicIssues(content)
         || (|r.requests| == 2 && llm(r.requests[1]) == Some(r.text)
             && 10 * CountWords(r.text) >= 9 * CountWords(content))
    ensures llm(r.requests[|r.requests| - 1]).None? ==> r.text == FixBasicIssues(content)
  {
    var first := ContentReview(content);
    match llm(first)
    case None => Reviewed(FixBasicIssues(content), [first])
    case Some(reviewed) =>
      var second := FinalCheck(reviewed);
      match llm(second)
      case None => Reviewed(FixBasicIssues(content), [first, second])
      case Some(final) =>
        if 10 * CountWords(final) < 9 * CountWords(content)
        then Reviewed(FixBasicIssues(content), [first, second])
        else Reviewed(final, [first, second])
  }

  /** Both passes succeeding with enough words kept: the second pass's text is the result. */
  lemma ReviewAccepts(content: string, llm: Request -> Option<string>, reviewed: string, final: string)
    requires llm(ContentReview(content)) == Some(reviewed)
    requires llm(FinalCheck(reviewed)) == Some(final)
    requires 10 * CountWords(final) >= 9 * CountWords(content)
    ensures ReviewContent(content, llm).text == final
  {
  }

  /** A second pass below 90% of the words is discarded in favour of the cleaned-up original. */
  lemma ReviewRevertsOnShrink(content: string, llm: Request -> Option<string>, reviewed: string, final: string)
    requires llm(ContentReview(content)) == Some(reviewed)
    requires llm(FinalCheck(reviewed)) == Some(final)
    requires 10 * CountWords(final) < 9 * CountWords(content)
    ensures ReviewContent(content, llm).text == FixBasicIssues(content)
  {
  }
}
