/**
 * The deterministic part of `web_scraper.py`: turning the result elements of a search
 * page into `{title, link, snippet}` records (with Google's `/url?q=` redirect links
 * unwrapped), removing duplicate links from the trend searches, and keeping only the
 * pages that yielded text.
 *
 * The network is an oracle: `page(query)` is the list of result elements of the search
 * page for `query`, or None when the request fails or does not answer 200, and
 * `fetch(url)` is the text extracted from `url` ("" when downloading or extraction fails).
 */
module Scraper {
  import opened Wrappers
  import opened Text

  /** One `div.g` element of a results page: its `h3` text, its first link's `href`, its snippet text. */
  datatype Hit = Hit(title: Option<string>, href: Option<string>, snippet: Option<string>)

  /** One entry of the result list. */
  datatype SearchResult = SearchResult(title: string, link: string, snippet: string)

  // ---------------------------------------------------------------- redirect links

  const RedirectPrefix: string := "/url?q="

  /** A link that starts with the prefix splits into "" and at least one more piece. */
  lemma SplitAtStart(s: string, sep: string)
    requires |sep| > 0 && StartsWith(s, sep)
    ensures |Split(s, sep)| >= 2
    ensures Split(s, sep)[1..] == Split(s[|sep|..], sep)
  {
    assert s[0..|sep|] == sep;
    assert FindFrom(s, sep, 0) == Some(0);
  }

  /** For a search-engine redirect, the target between the redirect prefix and the first '&'; any other link unchanged. */
  function RewriteLink(link: string): (r: string)
    ensures !StartsWith(link, RedirectPrefix) ==> r == link
  {
    if StartsWith(link, RedirectPrefix) then
      SplitAtStart(link, RedirectPrefix);
      Split(Split(link, RedirectPrefix)[1], "&")[0]
    else link
  }

  /** `Split(s, sep)[0]` is `s` up to the first separator, or all of `s`. */
  lemma SplitHead(s: string, sep: string)
    requires |sep| > 0
    ensures FindFrom(s, sep, 0).None? ==> Split(s, sep)[0] == s
    ensures FindFrom(s, sep, 0).Some? ==> Split(s, sep)[0] == s[..FindFrom(s, sep, 0).value]
  {
  }

  /** No character of `s` is `c`. */
  predicate Avoids(s: string, c: char) {
    forall i :: 0 <= i < |s| ==> s[i] != c
  }

  /** In `u + "&" + q`, the redirect prefix cannot occur before the end of `u` plus one. */
  lemma PrefixNotBefore(u: string, q: string, j: nat)
    requires !Contains(u, RedirectPrefix)
    requires j <= |u|
    ensures !OccursAt(u + "&" + q, RedirectPrefix, j)
  {
    var t := u + "&" + q;
    var n := |RedirectPrefix|;
    if j + n <= |u| {
      assert t[j..j + n] == u[j..j + n];
      NotContainsAt(u, RedirectPrefix, j);
    } else if j + n <= |t| {
      assert t[j..j + n][|u| - j] == t[|u|] == '&';
      assert Avoids(RedirectPrefix, '&');
    }
  }

  /**
   * A redirect to `u` with any query tail after `&` is unwrapped to `u`, provided `u` has
   * no `&` and does not itself contain the redirect prefix.
   */
  lemma RewriteLinkUnwraps(u: string, q: string)
    requires Avoids(u, '&') && !Contains(u, RedirectPrefix)
    ensures RewriteLink(RedirectPrefix + u + "&" + q) == u
  {
    var link := RedirectPrefix + u + "&" + q;
    RedirectPiece(u, q);
    SplitAtStart(link, RedirectPrefix);
    UpToAmpersand(u, Split(link, RedirectPrefix)[1]);
  }

  /** After the redirect prefix, the first piece runs past `u` and its `&`. */
  lemma RedirectPiece(u: string, q: string)
    requires !Contains(u, RedirectPrefix)
    ensures var link := RedirectPrefix + u + "&" + q;
      && StartsWith(link, RedirectPrefix)
      && |Split(link, RedirectPrefix)| > 1
      && var piece := Split(link, RedirectPrefix)[1];
      && |piece| > |u| && piece[..|u|] == u && piece[|u|] == '&'
  {
    var link := RedirectPrefix + u + "&" + q;
    var t := u + "&" + q;
    assert link == RedirectPrefix + t;
    assert link[..|RedirectPrefix|] == RedirectPrefix;
    assert link[|RedirectPrefix|..] == t;
    SplitAtStart(link, RedirectPrefix);
    var piece := Split(t, RedirectPrefix)[0];
    SplitHead(t, RedirectPrefix);
    var f := FindFrom(t, RedirectPrefix, 0);
    if f.Some? {
      if f.value <= |u| {
        PrefixNotBefore(u, q, f.value);
      }
      assert f.value > |u|;
      assert piece == t[..f.value];
    } else {
      assert piece == t;
    }
  }

  /** A text made of `u`, with no `&` in it, then `&` splits on `&` to `u` first. */
  lemma UpToAmpersand(u: string, piece: string)
    requires Avoids(u, '&')
    requires |piece| > |u| && piece[..|u|] == u && piece[|u|] == '&'
    ensures Split(piece, "&")[0] == u
  {
    assert OccursAt(piece, "&", |u|);
    assert forall j: nat :: j < |u| ==> !OccursAt(piece, "&", j) by {
      forall j: nat | j < |u| ensures !OccursAt(piece, "&", j) {
        assert piece[j] == u[j];
      }
    }
    assert FindFrom(piece, "&", 0) == Some(|u|);
    SplitHead(piece, "&");
  }

  // ---------------------------------------------------------------- search_web

  /** The records built from the elements that have a title and a linked `href`, in page order. */
  function Collect(hits: seq<Hit>): (rs: seq<SearchResult>)
    ensures |rs| <= |hits|
  {
    if |hits| == 0 then []
    else
      var h := hits[0];
      var rest := Collect(hits[1..]);
      if h.title.Some? && h.href.Some? then
        [SearchResult(h.title.value, RewriteLink(h.href.value), h.snippet.GetOr(""))] + rest
      else rest
  }

  /** `elements[:n]` with Python's meaning of a negative `n` (drop that many from the end). */
  function Head<T>(xs: seq<T>, n: int): (r: seq<T>)
    ensures n >= 0 ==> |r| == Min(n, |xs|)
    ensures |r| <= |xs| && r == xs[..|r|]
  {
    if n >= 0 then (if n <= |xs| then xs[..n] else xs)
    else if -n <= |xs| then xs[..|xs| + n] else []
  }

  /**
   * `search_web(query, num_results)`: an empty list when the page cannot be had, otherwise
   * the records of the first `num_results` elements. The function catches every exception
   * itself, so the retry decorator around it never retries.
   */
  function SearchWeb(query: string, numResults: int, page: string -> Option<seq<Hit>>): (rs: seq<SearchResult>)
    ensures numResults >= 0 ==> |rs| <= numResults
    ensures page(query).None? ==> rs == []
  {
    match page(query)
    case None => []
    case Some(hits) => Collect(Head(hits, numResults))
  }

  /** `r` is the record built from the element `h`. */
  predicate Made(h: Hit, r: SearchResult) {
    h.title == Some(r.title) && h.href.Some? && r.link == RewriteLink(h.href.value)
      && r.snippet == h.snippet.GetOr("")
  }

  predicate FromSomeHit(hits: seq<Hit>, r: SearchResult) {
    exists i :: 0 <= i < |hits| && Made(hits[i], r)
  }

  /**
   * Every record is built from an element with a title and a link, and when every element
   * has both, every element gives a record.
   */
  lemma {:induction false} CollectSpec(hits: seq<Hit>)
    ensures forall k :: 0 <= k < |Collect(hits)| ==> FromSomeHit(hits, Collect(hits)[k])
    ensures (forall i :: 0 <= i < |hits| ==> hits[i].title.Some? && hits[i].href.Some?) ==>
      |Collect(hits)| == |hits|
  {
    if |hits| > 0 {
      var tail := hits[1..];
      CollectSpec(tail);
      assert forall i :: 1 <= i < |hits| ==> tail[i - 1] == hits[i];
      var rest := Collect(tail);
      var rs := Collect(hits);
      var full := hits[0].title.Some? && hits[0].href.Some?;
      assert rs == (if full then [rs[0]] else []) + rest;
      forall k | 0 <= k < |rs| ensures FromSomeHit(hits, rs[k]) {
        if full && k == 0 {
          assert Made(hits[0], rs[0]);
        } else {
          var k' := if full then k - 1 else k;
          assert rs[k] == rest[k'];
          assert FromSomeHit(tail, rest[k']);
          var i :| 0 <= i < |tail| && Made(tail[i], rest[k']);
          assert Made(hits[i + 1], rs[k]);
        }
      }
    }
  }

  // ---------------------------------------------------------------- search_latest_hr_trends

  /** The six trend queries; `year` is `time.strftime("%Y")`. */
  function TrendQueries(year: string): (qs: seq<string>)
    ensures |qs| == 6
  {
    [ "latest HR trends " + year,
      "human resources challenges " + year,
      "trending topics in HR " + year,
      "employee engagement strategies",
      "remote work HR challenges",
      "HR technology innovations" ]
  }

  /** The lists one after the other, as `all_results.extend` builds them. */
  function Flatten(xss: seq<seq<SearchResult>>): seq<SearchResult> {
    if |xss| == 0 then [] else xss[0] + Flatten(xss[1..])
  }

  /** The links of `rs`. */
  function Links(rs: seq<SearchResult>): (ls: set<string>)
    ensures forall i :: 0 <= i < |rs| ==> rs[i].link in ls
    ensures forall l :: l in ls ==> exists i :: 0 <= i < |rs| && rs[i].link == l
  {
    set i | 0 <= i < |rs| :: rs[i].link
  }

  lemma LinksAppendOne(rs: seq<SearchResult>, r: SearchResult)
    ensures Links(rs + [r]) == Links(rs) + {r.link}
  {
    var a := rs + [r];
    assert forall i :: 0 <= i < |rs| ==> a[i] == rs[i];
    assert a[|rs|] == r;
  }

  /** The reference deduplication: each result is kept when no earlier result has its link. */
  function Unique(rs: seq<SearchResult>): seq<SearchResult>
    decreases |rs|
  {
    if |rs| == 0 then []
    else
      var init := rs[..|rs| - 1];
      var last := rs[|rs| - 1];
      Unique(init) + (if last.link in Links(init) then [] else [last])
  }

  /** One more result is kept exactly when its link is new. */
  lemma UniqueAppendOne(rs: seq<SearchResult>, r: SearchResult)
    ensures Unique(rs + [r]) == Unique(rs) + (if r.link in Links(rs) then [] else [r])
  {
    assert (rs + [r])[..|rs|] == rs;
  }

  /** The position of the first result with link `l`. */
  function FirstWithLink(rs: seq<SearchResult>, l: string): (k: nat)
    requires l in Links(rs)
    ensures k < |rs| && rs[k].link == l
    ensures forall j :: 0 <= j < k ==> rs[j].link != l
  {
    if rs[0].link == l then 0
    else
      assert l in Links(rs[1..]) by {
        var i :| 0 <= i < |rs| && rs[i].link == l;
        assert rs[1..][i - 1] == rs[i];
      }
      1 + FirstWithLink(rs[1..], l)
  }

  /** A prefix's first occurrences are the whole sequence's. */
  lemma FirstWithLinkPrefix(rs: seq<SearchResult>, n: nat, l: string)
    requires n <= |rs| && l in Links(rs[..n])
    ensures l in Links(rs) && FirstWithLink(rs[..n], l) == FirstWithLink(rs, l)
  {
    var k := FirstWithLink(rs[..n], l);
    assert forall j :: 0 <= j < n ==> rs[..n][j] == rs[j];
    assert rs[k].link == l;
  }

  /** Every kept result is the first one with its link. */
  lemma {:induction false} UniqueFirst(rs: seq<SearchResult>)
    decreases |rs|
    ensures forall i :: 0 <= i < |Unique(rs)| ==>
      Unique(rs)[i].link in Links(rs) && Unique(rs)[i] == rs[FirstWithLink(rs, Unique(rs)[i].link)]
  {
    if |rs| > 0 {
      var init := rs[..|rs| - 1];
      var last := rs[|rs| - 1];
      UniqueFirst(init);
      var u0 := Unique(init);
      var u := Unique(rs);
      forall i | 0 <= i < |u0|
        ensures u0[i].link in Links(rs) && u0[i] == rs[FirstWithLink(rs, u0[i].link)]
      {
        FirstWithLinkPrefix(rs, |rs| - 1, u0[i].link);
        assert init[FirstWithLink(init, u0[i].link)] == rs[FirstWithLink(init, u0[i].link)];
      }
      if last.link !in Links(init) {
        assert u == u0 + [last];
        LastIsFirst(rs);
      } else {
        assert u == u0;
      }
    }
  }

  /** A last result whose link is new is the first with that link. */
  lemma LastIsFirst(rs: seq<SearchResult>)
    requires |rs| > 0 && rs[|rs| - 1].link !in Links(rs[..|rs| - 1])
    ensures FirstWithLink(rs, rs[|rs| - 1].link) == |rs| - 1
  {
    assert forall j :: 0 <= j < |rs| - 1 ==> rs[..|rs| - 1][j] == rs[j];
  }

  /** The kept results come in the order of their links' first occurrences. */
  lemma {:induction false} UniqueOrdered(rs: seq<SearchResult>)
    decreases |rs|
    ensures forall i :: 0 <= i < |Unique(rs)| ==> Unique(rs)[i].link in Links(rs)
    ensures forall i, j :: 0 <= i < j < |Unique(rs)| ==>
      FirstWithLink(rs, Unique(rs)[i].link) < FirstWithLink(rs, Unique(rs)[j].link)
  {
    UniqueFirst(rs);
    if |rs| > 0 {
      var init := rs[..|rs| - 1];
      var last := rs[|rs| - 1];
      UniqueOrdered(init);
      var u0 := Unique(init);
      var u := Unique(rs);
      forall i | 0 <= i < |u0|
        ensures FirstWithLink(rs, u0[i].link) == FirstWithLink(init, u0[i].link) < |rs| - 1
      {
        FirstWithLinkPrefix(rs, |rs| - 1, u0[i].link);
      }
      if last.link !in Links(init) {
        assert u == u0 + [last];
        LastIsFirst(rs);
      } else {
        assert u == u0;
      }
    }
  }

  /** Every link of the input is kept. */
  lemma {:induction false} UniqueLinks(rs: seq<SearchResult>)
    decreases |rs|
    ensures Links(Unique(rs)) == Links(rs)
  {
    if |rs| > 0 {
      var init := rs[..|rs| - 1];
      var last := rs[|rs| - 1];
      UniqueLinks(init);
      assert rs == init + [last];
      LinksAppendOne(init, last);
      if last.link !in Links(init) {
        assert Unique(rs) == Unique(init) + [last];
        LinksAppendOne(Unique(init), last);
      } else {
        assert Unique(rs) == Unique(init);
      }
    }
  }

  /**
   * Deduplication keeps, in input order, exactly the first result of every link: the kept
   * links are pairwise different, each kept result is the first one with its link, and
   * every input link is kept.
   */
  lemma UniqueSpec(rs: seq<SearchResult>)
    ensures var u := Unique(rs);
      && (forall i :: 0 <= i < |u| ==> u[i].link in Links(rs) && u[i] == rs[FirstWithLink(rs, u[i].link)])
      && (forall i, j :: 0 <= i < j < |u| ==> u[i].link != u[j].link)
      && Links(u) == Links(rs)
  {
    UniqueFirst(rs);
    UniqueOrdered(rs);
    UniqueLinks(rs);
    var u := Unique(rs);
    forall i, j | 0 <= i < j < |u| ensures u[i].link != u[j].link {
      assert FirstWithLink(rs, u[i].link) < FirstWithLink(rs, u[j].link);
    }
  }

  /**
   * The dedup loop of `search_latest_hr_trends`, with its `seen_urls` set: it computes the
   * reference deduplication.
   */
  method Dedup(rs: seq<SearchResult>) returns (unique: seq<SearchResult>)
    ensures unique == Unique(rs)
    ensures forall i, j :: 0 <= i < j < |unique| ==> unique[i].link != unique[j].link
  {
    unique := [];
    var seen: set<string> := {};
    var i := 0;
    while i < |rs|
      invariant 0 <= i <= |rs|
      invariant unique == Unique(rs[..i])
      invariant seen == Links(rs[..i])
      decreases |rs| - i
    {
      assert rs[..i + 1] == rs[..i] + [rs[i]];
      LinksAppendOne(rs[..i], rs[i]);
      UniqueAppendOne(rs[..i], rs[i]);
      if rs[i].link !in seen {
        unique := unique + [rs[i]];
        seen := seen + {rs[i].link};
      }
      i := i + 1;
    }
    assert rs[..|rs|] == rs;
    UniqueSpec(rs);
  }

  /** `search_latest_hr_trends()`: the six searches of three results each, deduplicated, at most ten. */
  method SearchLatestHrTrends(year: string, page: string -> Option<seq<Hit>>) returns (trends: seq<SearchResult>)
    ensures var all := Flatten(seq(6, i requires 0 <= i < 6 => SearchWeb(TrendQueries(year)[i], 3, page)));
      trends == Head(Unique(all), 10)
    ensures |trends| <= 10
    ensures forall i, j :: 0 <= i < j < |trends| ==> trends[i].link != trends[j].link
  {
    var queries := TrendQueries(year);
    var all := Flatten(seq(6, i requires 0 <= i < 6 => SearchWeb(queries[i], 3, page)));
    var unique := Dedup(all);
    trends := Head(unique, 10);
  }

  // ---------------------------------------------------------------- scrape_multiple_sources

  /** `scrape_multiple_sources(urls)`: the `(url, text)` pairs whose text is not empty, in URL order. */
  function ScrapeMultiple(urls: seq<string>, fetch: string -> string): (pairs: seq<(string, string)>)
    ensures |pairs| <= |urls|
    ensures forall k :: 0 <= k < |pairs| ==> pairs[k].1 == fetch(pairs[k].0) && pairs[k].1 != ""
  {
    if |urls| == 0 then []
    else
      var c := fetch(urls[0]);
      (if c != "" then [(urls[0], c)] else []) + ScrapeMultiple(urls[1..], fetch)
  }

  /** The URLs of the scraped pairs. */
  function ScrapedUrls(pairs: seq<(string, string)>): (us: seq<string>)
    ensures |us| == |pairs| && forall k :: 0 <= k < |pairs| ==> us[k] == pairs[k].0
  {
    seq(|pairs|, k requires 0 <= k < |pairs| => pairs[k].0)
  }

  /** A URL is scraped exactly when it was asked for and its page yielded text. */
  lemma {:induction false} ScrapeMultipleKeeps(urls: seq<string>, fetch: string -> string, u: string)
    ensures u in ScrapedUrls(ScrapeMultiple(urls, fetch)) <==> u in urls && fetch(u) != ""
  {
    if |urls| > 0 {
      ScrapeMultipleKeeps(urls[1..], fetch, u);
      var rest := ScrapeMultiple(urls[1..], fetch);
      var head := if fetch(urls[0]) != "" then [(urls[0], fetch(urls[0]))] else [];
      assert ScrapeMultiple(urls, fetch) == head + rest;
      assert ScrapedUrls(head + rest) == ScrapedUrls(head) + ScrapedUrls(rest);
      assert urls == [urls[0]] + urls[1..];
    }
  }
}
