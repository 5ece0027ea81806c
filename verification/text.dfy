/**
 * String primitives of the Python standard library that the pipeline leans on:
 * character classes, `lower`/`capitalize`, `strip`, `find`/`rfind`, `split`/`join`,
 * `replace`, slicing with a bound, and the regular-expression word boundary `\b`.
 *
 * Character classes are ASCII: Python's Unicode tables for `\w`, `isalnum`, `isspace`
 * and `lower` are not modelled.
 */
module Text {
  import opened Wrappers

  // ---------------------------------------------------------------- characters

  predicate IsAsciiLetter(c: char) {
    ('a' <= c <= 'z') || ('A' <= c <= 'Z')
  }

  predicate IsAsciiDigit(c: char) {
    '0' <= c <= '9'
  }

  /** `str.isalnum` on one character. */
  predicate IsAlnum(c: char) {
    IsAsciiLetter(c) || IsAsciiDigit(c)
  }

  /** Membership in the regular-expression class `\w`. */
  predicate IsWordChar(c: char) {
    IsAlnum(c) || c == '_'
  }

  /**
   * Membership in `\s`, and what `str.strip()` removes, on ASCII: the space, tab, line
   * feed, vertical tab, form feed, carriage return and the four separators 0x1C-0x1F.
   */
  predicate IsSpace(c: char) {
    c == ' ' || c == '\t' || c == '\n' || c == '\r' || c == '\U{000B}' || c == '\U{000C}'
    || '\U{001C}' <= c <= '\U{001F}'
  }

  function LowerChar(c: char): (d: char)
    ensures IsWordChar(d) <==> IsWordChar(c)
    ensures IsAsciiLetter(d) <==> IsAsciiLetter(c)
    ensures !('A' <= d <= 'Z')
  {
    if 'A' <= c <= 'Z' then (c as int + 32) as char else c
  }

  function UpperChar(c: char): (d: char)
    ensures !('a' <= d <= 'z')
  {
    if 'a' <= c <= 'z' then (c as int - 32) as char else c
  }

  // ---------------------------------------------------------------- case

  /** `str.lower()`. */
  function Lower(s: string): (r: string)
    ensures |r| == |s|
    ensures forall i :: 0 <= i < |s| ==> r[i] == LowerChar(s[i])
  {
    seq(|s|, i requires 0 <= i < |s| => LowerChar(s[i]))
  }

  /** `str.capitalize()`: first character upper case, the rest lower case. */
  function Capitalize(s: string): (r: string)
    ensures |r| == |s|
    ensures |s| > 0 ==> r[0] == UpperChar(s[0]) && r[1..] == Lower(s[1..])
  {
    if |s| == 0 then "" else [UpperChar(s[0])] + Lower(s[1..])
  }

  // ---------------------------------------------------------------- prefixes, suffixes, slices

  predicate StartsWith(s: string, p: string) {
    |p| <= |s| && s[..|p|] == p
  }

  predicate EndsWith(s: string, p: string) {
    |p| <= |s| && s[|s| - |p|..] == p
  }

  /** `s[:n]` for a non-negative `n`. */
  function Take(s: string, n: nat): (r: string)
    ensures |r| == Min(n, |s|)
    ensures r == s[..|r|]
  {
    if n <= |s| then s[..n] else s
  }

  /** Concatenation of a sequence of strings, in order. */
  function Concat(ss: seq<string>): string {
    if |ss| == 0 then "" else ss[0] + Concat(ss[1..])
  }

  lemma {:induction false} ConcatAppend(a: seq<string>, b: seq<string>)
    ensures Concat(a + b) == Concat(a) + Concat(b)
  {
    if |a| == 0 {
      assert a + b == b;
    } else {
      assert (a + b)[1..] == a[1..] + b;
      ConcatAppend(a[1..], b);
    }
  }

  // ---------------------------------------------------------------- strip

  function StripStart(s: string): (r: string)
    ensures |r| <= |s| && r == s[|s| - |r|..]
    ensures |r| > 0 ==> !IsSpace(r[0])
    ensures forall i :: 0 <= i < |s| - |r| ==> IsSpace(s[i])
    ensures (|s| == 0 || !IsSpace(s[0])) ==> r == s
  {
    if |s| > 0 && IsSpace(s[0]) then
      var r := StripStart(s[1..]);
      assert forall i :: 1 <= i < |s| - |r| ==> s[i] == s[1..][i - 1];
      r
    else s
  }

  function StripEnd(s: string): (r: string)
    ensures |r| <= |s| && r == s[..|r|]
    ensures |r| > 0 ==> !IsSpace(r[|r| - 1])
    ensures forall i :: |r| <= i < |s| ==> IsSpace(s[i])
    ensures (|s| == 0 || !IsSpace(s[|s| - 1])) ==> r == s
  {
    if |s| > 0 && IsSpace(s[|s| - 1]) then
      var r := StripEnd(s[..|s| - 1]);
      assert forall i :: |r| <= i < |s| - 1 ==> s[i] == s[..|s| - 1][i];
      r
    else s
  }

  /** `str.strip()`: removes leading and trailing white space. */
  function Strip(s: string): (r: string)
    ensures |r| <= |s|
    ensures |r| > 0 ==> !IsSpace(r[0]) && !IsSpace(r[|r| - 1])
  {
    StripEnd(StripStart(s))
  }

  /** A string already free of surrounding white space is left alone by `strip`. */
  predicate Stripped(s: string) {
    |s| == 0 || (!IsSpace(s[0]) && !IsSpace(s[|s| - 1]))
  }

  lemma StripFixesStripped(s: string)
    requires Stripped(s)
    ensures Strip(s) == s
  {
  }

  lemma StripIdempotent(s: string)
    ensures Strip(Strip(s)) == Strip(s)
  {
    StripFixesStripped(Strip(s));
  }

  // ---------------------------------------------------------------- searching

  /** `sub` occurs in `s` starting at index `j`. */
  predicate OccursAt(s: string, sub: string, j: nat) {
    j + |sub| <= |s| && s[j..j + |sub|] == sub
  }

  /** `str.find(sub, i)`: the first occurrence at or after `i`. */
  function FindFrom(s: string, sub: string, i: nat): (r: Option<nat>)
    decreases |s| - i
    ensures r.Some? ==> i <= r.value && OccursAt(s, sub, r.value)
    ensures r.Some? ==> forall j: nat :: i <= j < r.value ==> !OccursAt(s, sub, j)
    ensures r.None? ==> forall j: nat :: i <= j ==> !OccursAt(s, sub, j)
  {
    if i + |sub| > |s| then None
    else if s[i..i + |sub|] == sub then Some(i)
    else FindFrom(s, sub, i + 1)
  }

  /** Python's `sub in s`. */
  predicate Contains(s: string, sub: string) {
    FindFrom(s, sub, 0).Some?
  }

  lemma ContainsIff(s: string, sub: string)
    ensures Contains(s, sub) <==> exists j: nat :: OccursAt(s, sub, j)
  {
    var r := FindFrom(s, sub, 0);
    if r.Some? {
      assert OccursAt(s, sub, r.value);
    }
  }

  lemma NotContainsAt(s: string, sub: string, j: nat)
    requires !Contains(s, sub)
    ensures !OccursAt(s, sub, j)
  {
  }

  lemma ContainsAt(s: string, sub: string, j: nat)
    requires OccursAt(s, sub, j)
    ensures Contains(s, sub)
  {
    ContainsIff(s, sub);
  }

  /** `str.rfind(sub, lo, hi)` for non-negative bounds: the last occurrence lying wholly inside `s[lo:hi]`, or -1. */
  function RFind(s: string, sub: string, lo: nat, hi: nat): int
    decreases hi
  {
    if hi < lo + |sub| then -1
    else if hi - |sub| + |sub| <= |s| && s[hi - |sub|..hi] == sub then hi - |sub|
    else RFind(s, sub, lo, hi - 1)
  }

  /** `rfind` returns the last occurrence wholly inside the window, and -1 only when there is none. */
  lemma {:induction false} RFindSpec(s: string, sub: string, lo: nat, hi: nat)
    decreases hi
    ensures var r := RFind(s, sub, lo, hi);
      && (r == -1 || (lo <= r && r + |sub| <= hi && OccursAt(s, sub, r)))
      && (r == -1 ==> forall j: nat :: lo <= j && j + |sub| <= hi ==> !OccursAt(s, sub, j))
      && (r != -1 ==> forall j: nat :: r < j && j + |sub| <= hi ==> !OccursAt(s, sub, j))
  {
    if hi >= lo + |sub| && !(hi - |sub| + |sub| <= |s| && s[hi - |sub|..hi] == sub) {
      RFindSpec(s, sub, lo, hi - 1);
    }
  }

  // ---------------------------------------------------------------- split, join, replace

  /** `s.split(sep)` for a non-empty separator. */
  function Split(s: string, sep: string): (parts: seq<string>)
    requires |sep| > 0
    decreases |s|
    ensures |parts| >= 1
  {
    match FindFrom(s, sep, 0)
    case None => [s]
    case Some(k) => [s[..k]] + Split(s[k + |sep|..], sep)
  }

  /** `sep.join(parts)`. */
  function Join(parts: seq<string>, sep: string): string {
    if |parts| == 0 then ""
    else if |parts| == 1 then parts[0]
    else parts[0] + sep + Join(parts[1..], sep)
  }

  /**
   * `sep.join` is undone by `.split(sep)` when no part contains the separator and the
   * separator's first character does not recur in it (as for "," and ", "): then no
   * occurrence can straddle a part and the separator that follows it.
   */
  lemma {:induction false} SplitJoinRoundTrip(parts: seq<string>, sep: string)
    requires |sep| > 0 && forall k :: 0 < k < |sep| ==> sep[k] != sep[0]
    requires |parts| >= 1
    requires forall i :: 0 <= i < |parts| ==> !Contains(parts[i], sep)
    ensures Split(Join(parts, sep), sep) == parts
  {
    var p0 := parts[0];
    if |parts| == 1 {
      assert Join(parts, sep) == p0;
      assert !Contains(p0, sep);
    } else {
      var rest := Join(parts[1..], sep);
      var s := p0 + sep + rest;
      assert Join(parts, sep) == s;
      assert OccursAt(s, sep, |p0|) by {
        assert s[|p0|..|p0| + |sep|] == sep;
      }
      forall j: nat | j < |p0|
        ensures !OccursAt(s, sep, j)
      {
        if j + |sep| <= |p0| {
          assert s[j..j + |sep|] == p0[j..j + |sep|];
          NotContainsAt(p0, sep, j);
        } else if j + |sep| <= |s| {
          var k := |p0| - j;
          assert s[j..j + |sep|][k] == s[|p0|] == sep[0];
          assert sep[k] != sep[0];
        }
      }
      assert FindFrom(s, sep, 0) == Some(|p0|);
      assert s[..|p0|] == p0;
      assert s[|p0| + |sep|..] == rest;
      SplitJoinRoundTrip(parts[1..], sep);
      assert Split(s, sep) == [p0] + Split(rest, sep);
    }
  }

  /** `s.replace(pat, rep)`: every non-overlapping occurrence, scanned left to right. */
  function ReplaceAll(s: string, pat: string, rep: string): string
    requires |pat| > 0
    decreases |s|
  {
    if |s| < |pat| then s
    else if s[..|pat|] == pat then rep + ReplaceAll(s[|pat|..], pat, rep)
    else [s[0]] + ReplaceAll(s[1..], pat, rep)
  }

  /** `replace` changes nothing when the pattern does not occur. */
  lemma {:induction false} ReplaceAllAbsent(s: string, pat: string, rep: string)
    requires |pat| > 0
    requires !Contains(s, pat)
    ensures ReplaceAll(s, pat, rep) == s
  {
    if |s| >= |pat| {
      NotContainsAt(s, pat, 0);
      assert s[..|pat|] != pat;
      forall k: nat
        ensures !OccursAt(s[1..], pat, k)
      {
        if k + |pat| <= |s| - 1 {
          assert s[1..][k..k + |pat|] == s[k + 1..k + 1 + |pat|];
          NotContainsAt(s, pat, k + 1);
        }
      }
      ContainsIff(s[1..], pat);
      ReplaceAllAbsent(s[1..], pat, rep);
    }
  }

  /** With `pat` occurring only at `p`, `replace` swaps exactly that occurrence. */
  lemma {:induction false} ReplaceAllSole(s: string, pat: string, rep: string, p: nat)
    requires |pat| > 0 && OccursAt(s, pat, p)
    requires forall j: nat :: j != p ==> !OccursAt(s, pat, j)
    decreases p
    ensures ReplaceAll(s, pat, rep) == s[..p] + rep + s[p + |pat|..]
  {
    if p == 0 {
      assert s[..|pat|] == pat;
      DropKeepsAbsent(s, pat, |pat|);
      ReplaceAllAbsent(s[|pat|..], pat, rep);
    } else {
      assert !OccursAt(s, pat, 0);
      TailKeepsSole(s, pat, p);
      ReplaceAllSole(s[1..], pat, rep, p - 1);
      SoleStep(s, rep, p, |pat|, ReplaceAll(s[1..], pat, rep));
    }
  }

  /** Dropping the first `d` characters of a text with no occurrence at or after `d` leaves none. */
  lemma DropKeepsAbsent(s: string, pat: string, d: nat)
    requires d <= |s|
    requires forall j: nat :: d <= j ==> !OccursAt(s, pat, j)
    ensures !Contains(s[d..], pat)
  {
    forall k: nat
      ensures !OccursAt(s[d..], pat, k)
    {
      if k + |pat| <= |s| - d {
        assert s[d..][k..k + |pat|] == s[k + d..k + d + |pat|];
        assert !OccursAt(s, pat, k + d);
      }
    }
    ContainsIff(s[d..], pat);
  }

  /** Dropping the first character moves the only occurrence from `p` to `p - 1`. */
  lemma TailKeepsSole(s: string, pat: string, p: nat)
    requires p > 0 && OccursAt(s, pat, p)
    requires forall j: nat :: j != p ==> !OccursAt(s, pat, j)
    ensures OccursAt(s[1..], pat, p - 1)
    ensures forall j: nat :: j != p - 1 ==> !OccursAt(s[1..], pat, j)
  {
    forall j: nat | j != p - 1
      ensures !OccursAt(s[1..], pat, j)
    {
      if j + |pat| <= |s| - 1 {
        assert s[1..][j..j + |pat|] == s[j + 1..j + 1 + |pat|];
        assert !OccursAt(s, pat, j + 1);
      }
    }
    assert s[1..][p - 1..p - 1 + |pat|] == s[p..p + |pat|];
  }

  /** The step of `ReplaceAllSole` past a first character that starts no occurrence. */
  lemma SoleStep(s: string, rep: string, p: nat, n: nat, tail: string)
    requires 0 < p && p + n <= |s|
    requires tail == s[1..][..p - 1] + rep + s[1..][p - 1 + n..]
    ensures [s[0]] + tail == s[..p] + rep + s[p + n..]
  {
    assert s[1..][..p - 1] == s[1..p] && s[1..][p - 1 + n..] == s[p + n..];
    assert s[..p] == [s[0]] + s[1..p];
  }

  /** With `o` occurring only at `p`, replacing `o` by `o + x` inserts `x` right after that occurrence. */
  lemma ReplaceAllSoleSuffix(s: string, o: string, x: string, p: nat)
    requires |o| > 0 && OccursAt(s, o, p)
    requires forall j: nat :: j != p ==> !OccursAt(s, o, j)
    ensures ReplaceAll(s, o, o + x) == s[..p + |o|] + x + s[p + |o|..]
  {
    ReplaceAllSole(s, o, o + x, p);
    assert s[..p + |o|] == s[..p] + o;
  }

  /** Putting `x` after every `p` keeps every prefix no longer than `p`. */
  lemma {:induction false} ReplaceAllKeepsPrefix(s: string, p: string, x: string, k: nat)
    requires |p| > 0 && k <= |s| && k <= |p|
    decreases |s|
    ensures var r := ReplaceAll(s, p, p + x); k <= |r| && r[..k] == s[..k]
  {
    if |s| >= |p| {
      if s[..|p|] == p {
        var r' := ReplaceAll(s[|p|..], p, p + x);
        assert ReplaceAll(s, p, p + x) == (p + x) + r';
        assert ((p + x) + r')[..k] == p[..k];
        assert s[..k] == s[..|p|][..k];
      } else if k > 0 {
        ReplaceAllKeepsPrefix(s[1..], p, x, k - 1);
        var r1 := ReplaceAll(s[1..], p, p + x);
        assert ReplaceAll(s, p, p + x) == [s[0]] + r1;
        assert ([s[0]] + r1)[..k] == [s[0]] + r1[..k - 1];
        assert s[..k] == [s[0]] + s[1..][..k - 1];
      }
    }
  }

  /**
   * Putting `x` after every occurrence of `p` loses nothing: replacing every `p + x` by
   * `p` afterwards gives the text back.
   */
  lemma {:induction false} ReplaceAllUndo(s: string, p: string, x: string)
    requires |p| > 0
    decreases |s|
    ensures ReplaceAll(ReplaceAll(s, p, p + x), p + x, p) == s
  {
    var r := ReplaceAll(s, p, p + x);
    if |s| < |p| {
      assert r == s;
    } else if s[..|p|] == p {
      var r' := ReplaceAll(s[|p|..], p, p + x);
      assert r == (p + x) + r';
      assert r[..|p + x|] == p + x && r[|p + x|..] == r';
      ReplaceAllUndo(s[|p|..], p, x);
      assert s == p + s[|p|..];
    } else {
      var r1 := ReplaceAll(s[1..], p, p + x);
      assert r == [s[0]] + r1;
      ReplaceAllUndo(s[1..], p, x);
      if |r| < |p + x| {
        assert ReplaceAll(r1, p + x, p) == r1;
        assert s == [s[0]] + s[1..];
      } else {
        ReplaceAllKeepsPrefix(s, p, x, |p|);
        assert r[..|p + x|][..|p|] == r[..|p|];
        assert (p + x)[..|p|] == p;
        assert r[..|p + x|] != p + x;
        assert r[1..] == r1;
        assert s == [s[0]] + s[1..];
      }
    }
  }

  // ---------------------------------------------------------------- regular-expression words

  /** Position `i` holds a `\w` character. */
  predicate WordAt(s: string, i: int) {
    0 <= i < |s| && IsWordChar(s[i])
  }

  /** The zero-width assertion `\b` holds at position `i` (0 <= i <= |s|). */
  predicate Boundary(s: string, i: int) {
    WordAt(s, i - 1) != WordAt(s, i)
  }

  /** `\b` + re.escape(w) + `\b` matches `s` at `p` under `re.IGNORECASE`. */
  predicate WholeWordAt(s: string, w: string, p: nat) {
    p + |w| <= |s| && Lower(s[p..p + |w|]) == Lower(w) && Boundary(s, p) && Boundary(s, p + |w|)
  }

  /** `re.search` of that pattern from position `i`: the leftmost match (see `FirstWholeWordSpec`). */
  function FirstWholeWord(s: string, w: string, i: nat): (r: Option<nat>)
    decreases |s| - i
    ensures r.Some? ==> i <= r.value && r.value + |w| <= |s|
  {
    if i + |w| > |s| then None
    else if WholeWordAt(s, w, i) then Some(i)
    else FirstWholeWord(s, w, i + 1)
  }

  /** The search finds a match, and the leftmost one, exactly when there is one. */
  lemma {:induction false} FirstWholeWordSpec(s: string, w: string, i: nat)
    decreases |s| - i
    ensures var r := FirstWholeWord(s, w, i);
      && (r.Some? ==> WholeWordAt(s, w, r.value))
      && (r.Some? ==> forall j: nat :: i <= j < r.value ==> !WholeWordAt(s, w, j))
      && (r.None? ==> forall j: nat :: i <= j ==> !WholeWordAt(s, w, j))
  {
    if i + |w| <= |s| && !WholeWordAt(s, w, i) {
      FirstWholeWordSpec(s, w, i + 1);
    }
  }
}
