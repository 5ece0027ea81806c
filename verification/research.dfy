/**
 * The data fold of `agents/research_agent.py`: the search query, the research text built
 * from the scraped sources (each cut to 5000 characters) with per-source metadata, the
 * chunked synthesis that concatenates one model reply per chunk, and the trending-topic
 * selection with its fallback list.
 *
 * The model is an oracle `llm: Request -> Option<string>` (None when the call raises);
 * the search page and page text oracles are those of `Scraper`. Each `random.choice` is an
 * index parameter, `pick` or `pick2`, the index of the fallback topic it would return.
 */
module Research {
  import opened Wrappers
  import opened Text
  import opened Words
  import opened Chunker
  import opened Scraper

  /** `Config.MAX_RESEARCH_SOURCES`. */
  const MaxResearchSources: nat := 5

  /** `Config.FALLBACK_HR_TOPICS`. */
  const FallbackTopics: seq<string> := [
    "Employee Retention Strategies",
    "Remote Work Best Practices",
    "Diversity and Inclusion in the Workplace",
    "Performance Management Systems",
    "Employee Wellness Programs",
    "HR Technology Trends",
    "Recruitment Automation",
    "Workplace Culture Development",
    "Employee Engagement Strategies",
    "HR Compliance Updates"
  ]

  /** One `source_metadata` entry; `extracted_keywords` may be absent in a dictionary read back. */
  datatype SourceMeta = SourceMeta(url: string, contentLength: nat, extractedKeywords: Option<seq<string>>)

  /** The research dictionary (its `timestamp` is a clock reading and is not modelled). */
  datatype ResearchData = ResearchData(
    topic: string,
    keywords: string,
    synthesized: string,
    sourceMetadata: Option<seq<SourceMeta>>)

  /** The prompts sent to the model. */
  datatype Request =
    | Synthesis(topic: string, chunk: string, keywords: string)
    | TrendAnalysis(trendData: string)

  // ---------------------------------------------------------------- query and sources

  /** The search query: the topic, followed by the keywords when there are any. */
  function Query(topic: string, keywords: string): (q: string)
    ensures keywords == "" ==> q == topic
    ensures keywords != "" ==> StartsWith(q, topic + " ") && q[|topic| + 1..] == keywords
  {
    if keywords == "" then topic else topic + " " + keywords
  }

  /** The text one source contributes: a `SOURCE:` header, then at most 5000 characters of it. */
  function SourceBlock(url: string, content: string): (b: string)
    ensures |b| <= |url| + 5012
    ensures StartsWith(b, "\n\nSOURCE: " + url + "\n")
  {
    "\n\nSOURCE: " + url + "\n" + Take(content, 5000) + "\n"
  }

  /** The metadata entry of one source: its full length and its five main keywords. */
  function Meta(url: string, content: string): SourceMeta {
    SourceMeta(url, |content|, Some(ExtractKeywords(content, 5)))
  }

  /**
   * A metadata entry records the untruncated length and at most five distinct keywords,
   * each a counted token of the lower-cased text.
   */
  lemma MetaSpec(url: string, content: string)
    ensures var m := Meta(url, content);
      && m.url == url && m.contentLength == |content|
      && m.extractedKeywords.Some? && |m.extractedKeywords.value| <= 5
      && (forall i :: 0 <= i < |m.extractedKeywords.value| ==>
           m.extractedKeywords.value[i] in Words.Words(Lower(content)) && IsCandidate(m.extractedKeywords.value[i]))
      && (forall i, j :: 0 <= i < j < |m.extractedKeywords.value| ==>
           m.extractedKeywords.value[i] != m.extractedKeywords.value[j])
  {
    ExtractKeywordsSpec(content, 5);
  }

  /** What the source loop accumulates: `combined_research` and `source_metadata`. */
  datatype Brief = Brief(combined: string, meta: seq<SourceMeta>)

  /** One iteration of the source loop: a source with text appends its block and its entry. */
  function Step(b: Brief, source: (string, string)): Brief {
    if source.1 != "" then Brief(b.combined + SourceBlock(source.0, source.1), b.meta + [Meta(source.0, source.1)])
    else b
  }

  /** The source loop over the scraped `(url, content)` pairs: empty contents are skipped. */
  function Fold(scraped: seq<(string, string)>): (b: Brief)
    ensures |b.meta| <= |scraped|
  {
    if |scraped| == 0 then Brief("", [])
    else Step(Fold(scraped[..|scraped| - 1]), scraped[|scraped| - 1])
  }

  /** Two briefs one after the other. */
  function Then(x: Brief, y: Brief): Brief {
    Brief(x.combined + y.combined, x.meta + y.meta)
  }

  lemma StepThen(x: Brief, y: Brief, source: (string, string))
    ensures Step(Then(x, y), source) == Then(x, Step(y, source))
  {
    if source.1 != "" {
      assert (x.combined + y.combined) + SourceBlock(source.0, source.1)
        == x.combined + (y.combined + SourceBlock(source.0, source.1));
      assert (x.meta + y.meta) + [Meta(source.0, source.1)] == x.meta + (y.meta + [Meta(source.0, source.1)]);
    }
  }

  /** The fold of two lists of sources is the first fold followed by the second. */
  lemma {:induction false} FoldAppend(a: seq<(string, string)>, c: seq<(string, string)>)
    decreases |c|
    ensures Fold(a + c) == Then(Fold(a), Fold(c))
  {
    if |c| > 0 {
      var c' := c[..|c| - 1];
      var last := c[|c| - 1];
      assert (a + c)[..|a + c| - 1] == a + c';
      assert (a + c)[|a + c| - 1] == last;
      assert Fold(a + c) == Step(Fold(a + c'), last);
      FoldAppend(a, c');
      StepThen(Fold(a), Fold(c'), last);
    } else {
      assert a + c == a;
      assert Fold(c) == Brief("", []);
      assert Then(Fold(a), Brief("", [])) == Fold(a);
    }
  }

  /** A source without text contributes nothing; one with text contributes its block and entry. */
  lemma FoldOne(url: string, content: string)
    ensures content == "" ==> Fold([(url, content)]) == Brief("", [])
    ensures content != "" ==> Fold([(url, content)]) == Brief(SourceBlock(url, content), [Meta(url, content)])
  {
    assert [(url, content)][..0] == [];
  }

  /** Metadata: one entry per source with text, in order, with the untruncated length. */
  lemma {:induction false} FoldMeta(scraped: seq<(string, string)>)
    requires forall k :: 0 <= k < |scraped| ==> scraped[k].1 != ""
    ensures |Fold(scraped).meta| == |scraped|
    ensures forall k :: 0 <= k < |scraped| ==> Fold(scraped).meta[k] == Meta(scraped[k].0, scraped[k].1)
  {
    if |scraped| > 0 {
      var init := scraped[..|scraped| - 1];
      assert forall k :: 0 <= k < |init| ==> init[k] == scraped[k];
      FoldMeta(init);
      var last := scraped[|scraped| - 1];
      assert Fold(scraped) == Step(Fold(init), last);
      var meta := Fold(init).meta + [Meta(last.0, last.1)];
      assert Fold(scraped).meta == meta;
      forall k | 0 <= k < |scraped| ensures meta[k] == Meta(scraped[k].0, scraped[k].1) {
        if k < |init| {
          assert meta[k] == Fold(init).meta[k];
        }
      }
    }
  }

  // ---------------------------------------------------------------- synthesis

  /** The replies collected and the prompts sent by the chunk loop. */
  datatype Synthesized = Synthesized(text: Option<string>, requests: seq<Request>)

  /** One request per chunk, in order: what the loop sends when no call raises. */
  function SynthesisRequests(topic: string, keywords: string, chunks: seq<string>): (rs: seq<Request>)
    ensures |rs| == |chunks|
    ensures forall i :: 0 <= i < |chunks| ==> rs[i] == Synthesis(topic, chunks[i], keywords)
  {
    seq(|chunks|, i requires 0 <= i < |chunks| => Synthesis(topic, chunks[i], keywords))
  }

  /** Every request of `rs` is answered. */
  predicate AllAnswered(llm: Request -> Option<string>, rs: seq<Request>) {
    forall i :: 0 <= i < |rs| ==> llm(rs[i]).Some?
  }

  /** The answers to `rs`, each followed by a blank line, concatenated. */
  function Answers(llm: Request -> Option<string>, rs: seq<Request>): string
    requires AllAnswered(llm, rs)
  {
    if |rs| == 0 then "" else llm(rs[0]).value + "\n\n" + Answers(llm, rs[1..])
  }

  /** The chunk loop: one synthesis request per chunk, stopping at the first call that raises. */
  function Synthesize(topic: string, keywords: string, chunks: seq<string>,
                      llm: Request -> Option<string>): (s: Synthesized)
  {
    if |chunks| == 0 then Synthesized(Some(""), [])
    else
      var req := Synthesis(topic, chunks[0], keywords);
      match llm(req)
      case None => Synthesized(None, [req])
      case Some(reply) =>
        var rest := Synthesize(topic, keywords, chunks[1..], llm);
        Synthesized(if rest.text.Some? then Some(reply + "\n\n" + rest.text.value) else None, [req] + rest.requests)
  }

  /**
   * The loop sends the planned requests in order and stops at the first unanswered one;
   * it succeeds exactly when all are answered, with the answers concatenated in order.
   */
  lemma {:induction false} SynthesizeSpec(topic: string, keywords: string, chunks: seq<string>,
                                          llm: Request -> Option<string>)
    ensures var s := Synthesize(topic, keywords, chunks, llm);
      var plan := SynthesisRequests(topic, keywords, chunks);
      && |s.requests| <= |plan| && s.requests == plan[..|s.requests|]
      && (s.text.Some? <==> AllAnswered(llm, plan))
      && (s.text.Some? ==> s.requests == plan && s.text.value == Answers(llm, plan))
      && (s.text.None? ==> |s.requests| > 0 && llm(s.requests[|s.requests| - 1]).None?)
  {
    var plan := SynthesisRequests(topic, keywords, chunks);
    if |chunks| > 0 {
      var rest := SynthesisRequests(topic, keywords, chunks[1..]);
      assert plan == [plan[0]] + rest;
      SynthesizeSpec(topic, keywords, chunks[1..], llm);
      var s := Synthesize(topic, keywords, chunks, llm);
      if llm(plan[0]).Some? {
        var sr := Synthesize(topic, keywords, chunks[1..], llm);
        assert s.requests == [plan[0]] + sr.requests;
        assert AllAnswered(llm, plan) <==> AllAnswered(llm, rest) by {
          assert forall i :: 1 <= i < |plan| ==> plan[i] == rest[i - 1];
        }
      } else {
        assert s.requests == [plan[0]];
      }
    }
  }

  // ---------------------------------------------------------------- research_topic

  /** The outcome of `research_topic`: the research dictionary (None when a model call raised), and the prompts sent. */
  datatype Researched = Researched(data: Option<ResearchData>, requests: seq<Request>)

  /** The links of the search results, in order. */
  function ResultLinks(results: seq<SearchResult>): (ls: seq<string>)
    ensures |ls| == |results| && forall i :: 0 <= i < |results| ==> ls[i] == results[i].link
  {
    seq(|results|, i requires 0 <= i < |results| => results[i].link)
  }

  /** The sources scraped for a query: the pages with text among the first five results. */
  function Sources(query: string, page: string -> Option<seq<Hit>>, fetch: string -> string): seq<(string, string)> {
    ScrapeMultiple(ResultLinks(SearchWeb(query, MaxResearchSources, page)), fetch)
  }

  /** The research text handed to the chunker. */
  function CombinedResearch(topic: string, keywords: string, page: string -> Option<seq<Hit>>,
                            fetch: string -> string): string {
    Fold(Sources(Query(topic, keywords), page, fetch)).combined
  }

  /** The research dictionary once the loop has run: present when every synthesis call answered. */
  function Assemble(topic: string, keywords: string, b: Brief, s: Synthesized): (r: Researched)
    ensures r.requests == s.requests && (r.data.Some? <==> s.text.Some?)
    ensures r.data.Some? ==> r.data.value == ResearchData(topic, keywords, s.text.value, Some(b.meta))
  {
    if s.text.Some? then Researched(Some(ResearchData(topic, keywords, s.text.value, Some(b.meta))), s.requests)
    else Researched(None, s.requests)
  }

  /** The chunks of the research text, with the default chunker parameters 4000 and 200. */
  function ResearchChunks(b: Brief): (chunks: seq<string>)
    ensures |chunks| >= 1
  {
    var chunks := SplitTextIntoChunks(b.combined, 4000, 200);
    if |b.combined| <= 16000 then
      assert Cut(b.combined, Span(0, |b.combined|)) == b.combined[0..|b.combined|];
      chunks
    else
      ChunksNonEmpty(b.combined);
      chunks
  }

  /** A long text is cut into at least one window. */
  lemma ChunksNonEmpty(text: string)
    requires |text| > 16000
    ensures |SplitTextIntoChunks(text, 4000, 200)| >= 1
  {
    SpansLoopGrows(text, 0, 16000, 200, []);
  }

  /** `research_topic(topic, keywords)`. */
  function ResearchTopic(topic: string, keywords: string, page: string -> Option<seq<Hit>>,
                         fetch: string -> string, llm: Request -> Option<string>): (r: Researched)
    ensures r.data.Some? ==> r.data.value.topic == topic && r.data.value.keywords == keywords
    ensures r.data.Some? ==> r.data.value.sourceMetadata.Some?
  {
    var b := Fold(Sources(Query(topic, keywords), page, fetch));
    Assemble(topic, keywords, b, Synthesize(topic, keywords, ResearchChunks(b), llm))
  }

  /**
   * The research run sends one synthesis request per chunk of the combined sources, in
   * order; it succeeds exactly when all are answered, and then the synthesis is the
   * answers in chunk order, and the metadata has one entry per scraped source.
   */
  lemma ResearchTopicSpec(topic: string, keywords: string, page: string -> Option<seq<Hit>>,
                          fetch: string -> string, llm: Request -> Option<string>)
    ensures var scraped := Sources(Query(topic, keywords), page, fetch);
      var plan := SynthesisRequests(topic, keywords, ResearchChunks(Fold(scraped)));
      var r := ResearchTopic(topic, keywords, page, fetch, llm);
      && |r.requests| <= |plan| && r.requests == plan[..|r.requests|]
      && (r.data.Some? <==> AllAnswered(llm, plan))
      && (r.data.Some? ==> r.requests == plan && r.data.value.synthesized == Answers(llm, plan))
      && (r.data.Some? ==> |r.data.value.sourceMetadata.value| == |scraped|)
  {
    var scraped := Sources(Query(topic, keywords), page, fetch);
    var b := Fold(scraped);
    FoldMeta(scraped);
    AssembleSpec(topic, keywords, b, llm);
    assert ResearchTopic(topic, keywords, page, fetch, llm)
      == Assemble(topic, keywords, b, Synthesize(topic, keywords, ResearchChunks(b), llm));
  }

  lemma AssembleSpec(topic: string, keywords: string, b: Brief, llm: Request -> Option<string>)
    ensures var chunks := ResearchChunks(b);
      var plan := SynthesisRequests(topic, keywords, chunks);
      var r := Assemble(topic, keywords, b, Synthesize(topic, keywords, chunks, llm));
      && |r.requests| <= |plan| && r.requests == plan[..|r.requests|]
      && (r.data.Some? <==> AllAnswered(llm, plan))
      && (r.data.Some? ==> r.requests == plan && r.data.value.synthesized == Answers(llm, plan))
      && (r.data.Some? ==> r.data.value.sourceMetadata == Some(b.meta))
  {
    SynthesizeSpec(topic, keywords, ResearchChunks(b), llm);
  }

  /** Without any source text the synthesis is one request on the empty chunk. */
  lemma NoSourcesOneRequest(topic: string, keywords: string, page: string -> Option<seq<Hit>>,
                            fetch: string -> string, llm: Request -> Option<string>)
    requires Sources(Query(topic, keywords), page, fetch) == []
    ensures ResearchTopic(topic, keywords, page, fetch, llm).requests == [Synthesis(topic, "", keywords)]
  {
    var b := Fold([]);
    assert b == Brief("", []);
    var chunks := ResearchChunks(b);
    assert chunks == [""];
    var req := Synthesis(topic, "", keywords);
    assert Synthesize(topic, keywords, [""], llm).requests == [req] by {
      assert [""][1..] == [];
    }
  }

  // ---------------------------------------------------------------- find_trending_topic

  /** The links of at most the first five trend results. */
  function TrendUrls(trends: seq<SearchResult>): (us: seq<string>)
    ensures |us| == Min(5, |trends|)
    ensures forall i :: 0 <= i < |us| ==> us[i] == trends[i].link
  {
    ResultLinks(Head(trends, 5))
  }

  /** One scraped trend page: a `Source:` header and at most 3000 characters. */
  function TrendEntry(url: string, content: string): (e: string)
    ensures |e| <= |url| + 3009
  {
    "Source: " + url + "\n" + Take(content, 3000)
  }

  function TrendEntries(scraped: seq<(string, string)>): (es: seq<string>)
    ensures |es| == |scraped|
    ensures forall i :: 0 <= i < |scraped| ==> es[i] == TrendEntry(scraped[i].0, scraped[i].1)
  {
    seq(|scraped|, i requires 0 <= i < |scraped| => TrendEntry(scraped[i].0, scraped[i].1))
  }

  /** The trend text given to the model: the entries separated by blank lines. */
  function TrendData(scraped: seq<(string, string)>): string {
    Join(TrendEntries(scraped), "\n\n")
  }

  /** The trend text is made from at most five pages, each cut to 3000 characters. */
  lemma TrendDataBounded(trends: seq<SearchResult>, fetch: string -> string)
    ensures var scraped := ScrapeMultiple(TrendUrls(trends), fetch);
      |scraped| <= 5 && forall i :: 0 <= i < |scraped| ==> |TrendEntries(scraped)[i]| <= |scraped[i].0| + 3009
  {
  }

  /** The research on a fallback topic, as the `except` branch and the empty-results branch run it. */
  function FallbackResearch(pick: nat, page: string -> Option<seq<Hit>>, fetch: string -> string,
                            llm: Request -> Option<string>): (r: Option<(string, ResearchData)>)
    requires pick < |FallbackTopics|
    ensures r.Some? ==> r.value.0 == FallbackTopics[pick] && r.value.1.topic == r.value.0
  {
    var topic := FallbackTopics[pick];
    match ResearchTopic(topic, "", page, fetch, llm).data
    case Some(d) => Some((topic, d))
    case None => None
  }

  /**
   * `find_trending_topic()`, given the trend results. `pick` is the first `random.choice`
   * the call makes and `pick2` the second, which only the empty-results path can reach: its
   * fallback research runs inside the `try`, so when it raises the `except` branch picks
   * again and researches that topic. With trend results, the stripped reply of the trend
   * analysis is used unless that call or the research on it raises, and then the `except`
   * branch makes the first pick. None when the research of the last fallback raises too.
   */
  function FindTrendingTopic(trends: seq<SearchResult>, pick: nat, pick2: nat, page: string -> Option<seq<Hit>>,
                             fetch: string -> string, llm: Request -> Option<string>): (r: Option<(string, ResearchData)>)
    requires pick < |FallbackTopics| && pick2 < |FallbackTopics|
    ensures r.Some? ==> r.value.1.topic == r.value.0
    ensures |trends| == 0 ==>
      r == (if FallbackResearch(pick, page, fetch, llm).Some? then FallbackResearch(pick, page, fetch, llm)
            else FallbackResearch(pick2, page, fetch, llm))
  {
    var fallback := FallbackResearch(pick, page, fetch, llm);
    if |trends| == 0 then
      (if fallback.Some? then fallback else FallbackResearch(pick2, page, fetch, llm))
    else
      var scraped := ScrapeMultiple(TrendUrls(trends), fetch);
      match llm(TrendAnalysis(TrendData(scraped)))
      case None => fallback
      case Some(reply) =>
        var topic := Strip(reply);
        match ResearchTopic(topic, "", page, fetch, llm).data
        case Some(d) => Some((topic, d))
        case None => fallback
  }

  /**
   * The selected topic is a configured fallback topic or the stripped trend-analysis reply;
   * the reply is used exactly when the analysis answered and the research on it succeeded.
   * A fallback is the first pick whenever its research succeeds; the second pick is
   * researched only when there were no trend results and the first pick's research failed.
   */
  lemma FindTrendingTopicSpec(trends: seq<SearchResult>, pick: nat, pick2: nat, page: string -> Option<seq<Hit>>,
                              fetch: string -> string, llm: Request -> Option<string>)
    requires pick < |FallbackTopics| && pick2 < |FallbackTopics|
    ensures var r := FindTrendingTopic(trends, pick, pick2, page, fetch, llm);
      var reply := llm(TrendAnalysis(TrendData(ScrapeMultiple(TrendUrls(trends), fetch))));
      var chosen := |trends| > 0 && reply.Some?
        && ResearchTopic(Strip(reply.value), "", page, fetch, llm).data.Some?;
      var first := FallbackResearch(pick, page, fetch, llm);
      && (chosen ==> r.Some? && r.value.0 == Strip(reply.value) && Stripped(r.value.0))
      && (!chosen && first.Some? ==> r == first && r.value.0 == FallbackTopics[pick])
      && (!chosen && first.None? && |trends| > 0 ==> r.None?)
      && (!chosen && first.None? && |trends| == 0 ==> r == FallbackResearch(pick2, page, fetch, llm))
  {
    if |trends| > 0 {
      var reply := llm(TrendAnalysis(TrendData(ScrapeMultiple(TrendUrls(trends), fetch))));
      if reply.Some? {
        var topic := Strip(reply.value);
        assert Stripped(topic);
        match ResearchTopic(topic, "", page, fetch, llm).data
        case Some(d) =>
          assert FindTrendingTopic(trends, pick, pick2, page, fetch, llm) == Some((topic, d));
        case None =>
      }
    }
  }
}
