# MultiAgentBlogBuilder core, modelled in Dafny

MultiAgentBlogBuilder writes HR blog posts with a chain of agents: research, planning,
drafting, SEO optimisation and review. Around the language-model and web calls sits a
layer of deterministic text and structure processing. This project models that layer
and proves properties of it:

- the Markdown assembler;
- word counting;
- keyword density and keyword extraction;
- the retry wrapper;
- the text chunker;
- the reviewer's accept/revert rule and clean-up;
- the SEO agent's parse tiers, link marker and heading suffixes;
- the planner's keyword derivation, parse tiers and fallback outline;
- the drafting loop of the content agent;
- the research brief and the trend-topic choice;
- search-result post-processing;
- the save and dispatch helpers of the web front end.

Everything outside that layer enters as a function parameter:

- Every language-model call is an oracle `llm: Request -> Option<string>`, with one `Request` datatype per agent. `None` means the call raised.
- `json.loads` is an oracle returning an optional JSON `Value`. The planner's oracle returns an optional typed `Outline`.
- A search results page is an oracle `page: string -> Option<seq<Hit>>`, where `None` means the request failed.
- Page text extraction is `fetch: string -> string`, where `""` means nothing was extracted or the fetch raised.
- `random.choice` over the fallback topics is an index parameter: `pick` for the first call and `pick2` for the second, which only follows a failed fallback research on the empty-results path.
- A clock year is a string parameter.
- Pauses are recorded as events where their order matters (content agent), and otherwise left out.

Modules:

- `Wrappers` and `Text` hold shared vocabulary: options, strip, find, split/join, lower-case, and Python slicing.
- `Words` covers `count_words`, `calculate_keyword_density` and `extract_keywords_from_text`.
- `Markdown` covers `create_markdown_blog`.
- `Retry` covers `retry_with_exponential_backoff`.
- `Chunker` covers `split_text_into_chunks`.
- `Review`, `Json`/`Seo`, `Planning`, `Content` and `Research` cover the agents.
- `Scraper` covers `web_scraper.py`.
- `App` covers `main.py`.

## Model

| member | source | states |
|---|---|---|
| Markdown.CreateMarkdownBlog | utils.py:21-38 | The post starts with "# " + title + a blank line, and with no sections it is exactly that line |
| Markdown.RenderSectionsAppend | utils.py:23-36 | Sections render one after another in input order: rendering a concatenation is the concatenation of the renderings |
| Markdown.BlogAppendSection | utils.py:23-38 | Appending a section to the input appends exactly that section's rendering to the post |
| Markdown.EmptySectionInvisible | utils.py:24-36 | A section whose heading, content and subheadings are all empty emits nothing wherever it stands |
| Words.Words | utils.py:50 | Every token found is a non-empty run of word characters |
| Words.CountWordsIsRunStarts | utils.py:50 | The word count is the number of maximal word-character runs in the text |
| Words.NoWordsIffNoWordChars | utils.py:50 | The count is 0 exactly when the text has no word character, so the count of "" is 0 |
| Words.RunStartsLower | utils.py:100 | Lower-casing the text does not change where its word runs start |
| Words.KeywordDensity | utils.py:63-77 | Density is the ratio (total whole-word matches)/(word count); an empty keyword list, empty text or zero word count gives 0/1 |
| Words.MatchesFromCountsWholeMatches | utils.py:75 | For a keyword of word characters, the left-to-right `findall` scan counts exactly the positions where the keyword occurs with a word boundary on both sides |
| Words.TotalMatchesCountsWholeMatches | utils.py:73-75 | For word-character keywords, the summed match counts equal the summed numbers of whole-word positions of each lower-cased keyword |
| Words.KeywordDensityCountsWholeMatches | utils.py:63-77 | For word-character keywords, the density is the number of whole-word keyword positions in the lower-cased text over the word count, and 0 without keywords or words |
| Words.DensityOfOneWordAtMostOne | utils.py:70-77 | A single keyword made of word characters matches at most once per word, so its density is at most 1 |
| Words.DensityCanExceedOne | utils.py:70-77 | There is no bound of 1 in general: an empty keyword, or a keyword listed twice, gives density 2 on a one-word text |
| Words.CountAppend | utils.py:103-108 | Frequencies add up over concatenated token lists |
| Words.Distinct | utils.py:101-108 | The distinct tokens are listed in order of first occurrence, and every token is among them |
| Words.SortByFreq | utils.py:111 | Sorting the frequency table permutes its entries |
| Words.SortByFreqSorted | utils.py:111 | The sorted table is in non-increasing frequency order, with ties kept in first-occurrence order, as a stable reverse sort does |
| Words.SortedTable | utils.py:101-111 | The sorted table has one entry per distinct token, recording its true count and first position |
| Words.TopByFrequencySpec | utils.py:111-114 | The top-k list holds at most k distinct tokens ranked by count then first occurrence; any omitted token ranks below all k kept ones |
| Words.Candidates | utils.py:103-104 | Only tokens longer than 3 characters and outside the stop list are kept, each with its full count |
| Words.CandidatesKeepOrder | utils.py:103-104 | Of two kept tokens, the one whose first occurrence comes first among the kept tokens is the one whose first occurrence comes first in the text |
| Words.ExtractKeywordsSpec | utils.py:91-114 | Extracted keywords are at most max_keywords distinct lower-cased tokens of the text, each long and not a stop word, ranked by frequency with stable ties; any omitted candidate is outranked by every kept keyword |
| Retry.RetryWithBackoff | utils.py:134-154 | The wrapped call runs at most max_retries+1 times; the result is the first success, or the last failure after max_retries+1 failures; the k-th pause is initial_delay*base^k |
| Chunker.BreakEndSpec | utils.py:199-213 | The window end is the last paragraph break + 2 if past the half-window mark, else the last sentence break + 2 if past a third, else the last space + 1 if past the start, else the full window |
| Chunker.BreakEndInWindow | utils.py:193-213 | For a window inside the text, the chosen end lies after the start and no further than the full window |
| Chunker.DefaultParametersCanHang | utils.py:184-217 | With the default parameters, the text "a " followed by 15999 or more 'x' never finishes chunking as written, whatever the step budget |
| Chunker.FirstCutAfterSpace | utils.py:211-216 | On that text the first window ends just after the space, so the next start is 2 - 200 = -198 |
| Chunker.SecondCutAtZero | utils.py:200-216 | From start -198, negative indices make every search miss, so the end is 0 and the next start is -200 |
| Chunker.StuckAtMinus200 | utils.py:192-216 | From start -200 the loop returns to -200 every round, so no step budget finishes it |
| Chunker.ChooseEnd | utils.py:199-216 | The corrected end always moves past start + overlap, and agrees with the written choice whenever that one does |
| Chunker.ChunkSpansTile | utils.py:184-217 | The windows the corrected chunker cuts tile the text: the first starts at 0, the last ends at the end, each is at most max_tokens*4 long, and each next one starts overlap characters before the previous one ends and after the previous one starts |
| Chunker.SplitTextIntoChunksLoop | utils.py:184-217 | Short text gives [text]; otherwise every chunk is at most max_tokens*4 long, the first starts at 0, the last ends at the end of the text, and each next chunk starts overlap characters before the previous one ends |
| Chunker.SpansLoopGrows | utils.py:192-216 | Every round of the corrected loop emits at least one chunk |
| Review.SubWordLeftmost | agents/review_agent.py:176-177 | A typo substitution replaces the leftmost whole-word occurrence and continues after it |
| Review.SubWordAbsent | agents/review_agent.py:176-177 | Text without a whole-word occurrence of a typo is left unchanged |
| Review.CollapseSpacesFree | agents/review_agent.py:180 | After collapsing, no two spaces are adjacent |
| Review.CollapseSpacesIdempotent | agents/review_agent.py:180 | Collapsing spaces twice is the same as once |
| Review.CollapseSpacesKeepsText | agents/review_agent.py:180 | Collapsing spaces removes only spaces |
| Review.CollapseNewlinesFree | agents/review_agent.py:183 | After collapsing, no three newlines are adjacent |
| Review.CollapseNewlinesIdempotent | agents/review_agent.py:183 | Collapsing newline runs twice is the same as once |
| Review.CollapseNewlinesKeepsText | agents/review_agent.py:183 | Collapsing newline runs removes only newlines |
| Review.CollapseNewlinesKeepsSpaces | agents/review_agent.py:180-183 | Collapsing newlines cannot create a double space |
| Review.SpaceAfterPeriodsClean | agents/review_agent.py:186 | After the fix no period is directly followed by an ASCII letter |
| Review.SpaceAfterPeriodsIdempotent | agents/review_agent.py:186 | Inserting spaces after periods twice is the same as once |
| Review.SpaceAfterPeriodsKeepsText | agents/review_agent.py:186 | The period fix inserts only spaces |
| Review.SpaceAfterPeriodsKeepsSpaces | agents/review_agent.py:180-186 | The period fix cannot create a double space |
| Review.SpaceAfterPeriodsKeepsNewlines | agents/review_agent.py:183-186 | The period fix cannot create a run of three newlines |
| Review.FixBasicIssuesClean | agents/review_agent.py:173-188 | The clean-up result has no double space, no run of three newlines and no period touching a letter |
| Review.ReviewContent | agents/review_agent.py:113-145 | First the content is reviewed; only if that answers is the review output final-checked. The result is the final-check output kept at 90% of the words, otherwise the cleaned original |
| Review.ReviewAccepts | agents/review_agent.py:118-137 | When both passes answer and the final text keeps at least 90% of the words, it is returned as is |
| Review.ReviewRevertsOnShrink | agents/review_agent.py:128-135 | When the final text falls below 90% of the words, both passes are discarded for the cleaned original |
| Json.CleanFence | agents/seo_agent.py:162-169 | The cleaned reply has no surrounding white space |
| Json.CleanFenceNoFence | agents/seo_agent.py:162-169 | Without an opening or closing fence, cleaning is just strip |
| Json.CleanFenceUnwraps | agents/seo_agent.py:162-169 | A reply wrapped in "```json" … "```" cleans to its stripped body |
| Json.DecimalRoundTrip | agents/seo_agent.py:198 | The decimal rendering of a word count reads back as the same number |
| Seo.KeywordList | agents/seo_agent.py:137 | The keyword list is empty exactly for an empty keywords string, and its items carry no surrounding white space |
| Seo.KeywordListOfJoin | agents/seo_agent.py:137 | Splitting a ", "-joined list of comma-free, stripped, non-empty keywords gives the list back |
| Seo.DensityValue | agents/seo_agent.py:137-138 | The local density is a non-negative number, 0 without keywords |
| Seo.ParseFallback | agents/seo_agent.py:185-203 | The fallback when neither parse succeeds scores 50 and reports the local density |
| Seo.ErrorFallback | agents/seo_agent.py:205-227 | The fallback after any other exception scores 0 and reports the local density |
| Seo.InsertDensity | agents/seo_agent.py:153-154 | The calculated density is added inside "keyword_analysis" only when that key exists, and every other field is kept |
| Seo.AnalyzeSeo | agents/seo_agent.py:135-227 | A reply that decodes is returned with the density inserted, unless it is not an object (raw tier) or its "keyword_analysis" is not an object, which gives the score-0 fallback; a reply that does not decode is cleaned and handled the same way; neither decoding gives the score-50 fallback, and a failed model call the score-0 fallback |
| Seo.AnalyzeSeoInsertsDensity | agents/seo_agent.py:148-156 | A decoded object whose "keyword_analysis" is an object comes back with the local density added there and every other field as decoded |
| Seo.AnalyzeSeoKeepsReply | agents/seo_agent.py:148-156 | A decoded object without "keyword_analysis" is returned unchanged |
| Seo.AnalyzeSeoUndecodable | agents/seo_agent.py:181-203 | When neither parse succeeds, the result scores 50 and carries the local density |
| Seo.ScoreAbove85 | agents/seo_agent.py:248 | A missing "overall_score" counts as not above 85; above 85 requires a numeric score |
| Seo.OptimizeContent | agents/seo_agent.py:243-272 | A score above 85 yields headings(link(content)) with no rewrite call; otherwise the rewrite output; the original content if the rewrite fails |
| Seo.LinkSite | agents/seo_agent.py:302-313 | The marker site is a whole-word mention of a table key not named by the topic, at the first such mention |
| Seo.LinkFromSpec | agents/seo_agent.py:299-317 | Without a marker in the text, exactly one marker is inserted, after the first mention of the first eligible entry in table order, or none |
| Seo.AddInternalLinkMarked | agents/seo_agent.py:311 | Text that already holds a marker comes back unchanged |
| Seo.AddInternalLinkInserts | agents/seo_agent.py:311-317 | Deleting the inserted marker restores the input |
| Seo.HeadingAt | agents/seo_agent.py:341-345 | A heading match is a run of '#' followed by white space and the rest of a line, found anywhere (the pattern is not anchored) |
| Seo.HeadingKeywords | agents/seo_agent.py:332-334 | Headings use the keyword list, else the topic alone, and no keyword only when both are empty |
| Seo.OptimizeHeadings | agents/seo_agent.py:331-367 | Nothing changes without a keyword and a topic or without a qualifying heading; otherwise undoing the replacement of each qualifying heading found in the content restores the content, so the pass only inserts suffixes |
| Seo.RewriteHeadingsUndo | agents/seo_agent.py:344-365 | Replacing each suffixed qualifying heading back by its original, last heading first, gives back the text the loop started from |
| Seo.RewriteNothingQualifies | agents/seo_agent.py:344-367 | When no heading qualifies, nothing changes |
| Seo.RewriteSoleHeading | agents/seo_agent.py:352-365 | A qualifying heading whose line occurs once in the document gets ": " and the capitalised first keyword inserted right after it, and the rest of the document is unchanged |
| Text.ReplaceAllSoleSuffix | agents/seo_agent.py:365 | With the pattern occurring at one position only, replacing it by itself plus a suffix inserts the suffix right after that position |
| Text.ReplaceAllUndo | agents/seo_agent.py:365 | Replacing every occurrence of a pattern by the pattern plus a suffix, then every pattern-plus-suffix by the pattern, gives the text back |
| Seo.HeadingLine | agents/seo_agent.py:341-345 | A one-line document "## text" holds exactly one heading match with those markers and that text |
| Seo.SingleHeadingSuffixed | agents/seo_agent.py:344-365 | A one-heading document whose text lacks the keyword and is 4 to 49 characters long gets ": Keyword" appended |
| Scraper.RewriteLink | web_scraper.py:79-80 | A link not starting with "/url?q=" is kept |
| Scraper.RewriteLinkUnwraps | web_scraper.py:79-80 | "/url?q=" + target + "&" + rest becomes the target when it holds no '&' and no second prefix |
| Scraper.Head | web_scraper.py:125 | A Python slice [:n] keeps the first min(n, length) elements |
| Scraper.SearchWeb | web_scraper.py:51-91 | At most num_results results, and none when the page request fails |
| Scraper.CollectSpec | web_scraper.py:69-86 | Every result comes from an element with a title and a link, with its link rewritten and a missing snippet as ""; when all elements are complete, nothing is dropped |
| Scraper.UniqueSpec | web_scraper.py:116-123 | Dedup keeps, in order, the first result for each link: no two share a link, each is an input element, and every input link survives |
| Scraper.Dedup | web_scraper.py:116-123 | The seen-set loop computes exactly the reference dedup |
| Scraper.SearchLatestHrTrends | web_scraper.py:100-125 | Trends are the first 10 deduplicated results of six 3-result searches, in query order, with distinct links |
| Scraper.ScrapeMultiple | web_scraper.py:137-145 | Each kept pair holds a URL and its non-empty page text, and there are no more pairs than URLs |
| Scraper.ScrapeMultipleKeeps | web_scraper.py:139-145 | A URL is kept exactly when it was asked for and its page text is non-empty |
| Research.Query | agents/research_agent.py:145-147 | The query is the topic, or the topic + " " + keywords when keywords are given |
| Research.SourceBlock | agents/research_agent.py:163-164 | A source block starts with its "SOURCE: url" header and carries at most 5000 characters of content |
| Research.MetaSpec | agents/research_agent.py:166-173 | Metadata records the URL and the untruncated length, with at most five distinct keywords from the full content |
| Research.FoldAppend | agents/research_agent.py:158-173 | The source fold is a left fold: folding a concatenation appends the two briefs |
| Research.FoldOne | agents/research_agent.py:161-173 | An empty source adds nothing; a non-empty one adds its block and its metadata |
| Research.FoldMeta | agents/research_agent.py:161-173 | With every content non-empty, there is one metadata entry per source, in scrape order |
| Research.SynthesizeSpec | agents/research_agent.py:176-187 | One request per chunk in order, stopping at the first failure; success gives the chunk answers each followed by a blank line |
| Research.ResearchChunks | agents/research_agent.py:176 | The research always yields at least one chunk |
| Research.ResearchTopicSpec | agents/research_agent.py:144-196 | Researching sends the planned synthesis requests in order; the data exists exactly when all are answered, and then holds one metadata entry per scraped source |
| Research.NoSourcesOneRequest | agents/research_agent.py:176-187 | With no usable source the synthesis is one request on "" |
| Research.TrendUrls | agents/research_agent.py:110 | At most the first five trend links are scraped |
| Research.TrendEntries | agents/research_agent.py:114 | Each trend entry is "Source: url" + a newline + the first 3000 characters of its page |
| Research.FindTrendingTopic | agents/research_agent.py:100-129 | The returned research is about the returned topic; empty trends research the first picked topic, and a second picked topic when that research fails |
| Research.FindTrendingTopicSpec | agents/research_agent.py:100-129 | The stripped model reply is used when it answers and its research succeeds; otherwise the first picked topic when its research succeeds; otherwise None after trend results, and the second picked topic's research after empty ones |
| Research.FallbackResearch | agents/research_agent.py:106-107 | The fallback topic is the picked configured topic, and its research is about it |
| Planning.AllKeywordsFrom | agents/planning_agent.py:126-129 | A keyword is gathered exactly when some source lists it |
| Planning.DeriveKeywords | agents/planning_agent.py:124 | Given keywords, or data without source metadata, pass through unchanged |
| Planning.DeriveKeywordsSpec | agents/planning_agent.py:124-142 | Derived keywords are at most five distinct gathered keywords, by descending count with first-seen ties, joined with ", " |
| Planning.TargetKeywords | agents/planning_agent.py:182 | The fallback's target keyword list is empty exactly for empty keywords |
| Planning.TargetKeywordsOfJoin | agents/planning_agent.py:182 | Splitting on ", " gives back the joined keywords when none contains ", " |
| Planning.FallbackListsDerivedKeywords | agents/planning_agent.py:124-142 | The fallback outline lists exactly the derived top-five keywords |
| Planning.ResearchKeywordsAreWords | agents/research_agent.py:166-173 | Keywords gathered from research metadata are all plain words |
| Planning.FallbackOutline | agents/planning_agent.py:180-250 | The fallback is titled after the topic, has six sections from "Introduction" to "Conclusion", and every heading and target is set |
| Planning.FallbackBudget | agents/planning_agent.py:183-248 | The fallback's section targets sum to its estimated 2000 words |
| Planning.FallbackSubheadingBudgets | agents/planning_agent.py:191-236 | In every fallback section with subheadings, their targets sum to the section's target |
| Planning.CreateOutline | agents/planning_agent.py:146-255 | A failed model call fails the outline; otherwise the raw decode, else the fence-cleaned decode, else the fallback outline |
| Planning.CreateOutlineTotal | agents/planning_agent.py:155-251 | When the model answers there is always an outline, and it is one of the three tiers |
| Planning.CreateOutlineFenced | agents/planning_agent.py:163-175 | A fenced reply that does not decode raw is decoded from its stripped body |
| Content.KindOf | agents/content_agent.py:151-166 | A section is the introduction or the conclusion exactly when its lower-cased heading is that word |
| Content.TitleOf | agents/content_agent.py:139 | The title defaults to topic + ": A Comprehensive Guide" |
| Content.ConclusionPoints | agents/content_agent.py:168-171 | Collecting key points fails exactly when some section has no heading |
| Content.ConclusionPointsAreMainPoints | agents/content_agent.py:168-173 | With every heading present, the conclusion gets the key points of the main sections, in outline order |
| Content.BodyBudget | agents/content_agent.py:226 | The body target is the section target (300 by default) less the subheading targets (200 each by default), and never below 50 |
| Content.FallbackBodyBudgets | agents/content_agent.py:226 | In the fallback outline, the bodies of sections with subheadings get the floor of 50 words, and "Future Directions" keeps 200 |
| Content.RunSubsSpec | agents/content_agent.py:195-218 | Subheadings are drafted in order, each request followed by a one-second pause; success keeps every title in order |
| Content.RunSectionSpec | agents/content_agent.py:145-237 | One section sends its planned requests; it is drafted exactly when they are all answered, with its heading kept and with no subheadings for the introduction or conclusion |
| Content.RunSectionsSpec | agents/content_agent.py:145-237 | The section loop sends the planned requests in order, up to the first failure; success drafts one section per outline section, in order |
| Content.GenerateContent | agents/content_agent.py:139-245 | The post begins with the title line |
| Content.GenerateContentSpec | agents/content_agent.py:121-245 | The post exists exactly when no section raises and every planned request is answered; it is the Markdown assembly of one drafted section per outline section |
| Content.SubPlanAlternates | agents/content_agent.py:203-218 | Subheading requests pass no subheadings, use the subheading title as heading, and alternate with one-second pauses |
| Content.PlanSection | agents/content_agent.py:153-237 | The introduction and conclusion have no pause; a main section ends with its body request and a two-second pause |
| App.EffectiveTopic | main.py:44-56 | A blank or all-white-space topic becomes "HR Technology Trends"; any other is stripped |
| App.ChoosePost | main.py:88-91 | The technology post is chosen exactly when the lower-cased topic mentions "technology", "tech" or "digital" |
| App.TechTopicIff | main.py:88 | The "technology" test is subsumed by the "tech" test |
| App.BlankTopicGetsTechPost | main.py:88-89 | A blank topic always yields the technology post |
| App.GenerateBlogSpec | main.py:48-114 | Without an exception, progress rises strictly 0, 20, 40, 70, 90, 100 and the post is stored; with one, progress ends at the error status with 0 and nothing is stored |
| App.SafeFilename | main.py:349 | The file name has only letters, digits and '_', never ends with '_', and is no longer than the topic |
| App.SafeFilenameChars | main.py:349 | Letters and digits keep their places, every other character becomes '_', and only non-alphanumerics are trimmed from the end |
| App.SafeFilenameIdempotent | main.py:349 | Sanitising a safe name changes nothing |
| App.SaveBlog | main.py:341-366 | With nothing generated, the reply is the no-content answer; otherwise it carries the stored post |
| App.SaveBlogSpec | main.py:344-359 | The file is the safe name + ".md" with Markdown type exactly for "markdown", + ".html" with HTML type exactly for "html", and + ".txt" with plain text otherwise |

## Left out

- Language-model calls, prompt text and LangChain set-up (the agents' `__init__` methods): oracles as described above.
- JSON parsing: `json.loads` is an oracle. The planner's oracle returns a typed outline, so a reply that parses to JSON that is not an outline is out of scope. This includes the log line in agents/planning_agent.py:157 that calls `.get` on a non-dict.
- `get_website_text_content` (web_scraper.py:12-38): page download and text extraction, an oracle `fetch`.
- The HTML layout of search pages (web_scraper.py:65-72): an element is modelled by its optional title, link and snippet.
- The HTTP status check and exceptions inside `search_web`: the page oracle returns None for both. Because `search_web` catches every exception itself, the retry decorator around it never retries. The wrapper is modelled on its own.
- `get_env_variable` (utils.py:158-169): reads the environment.
- Retry jitter (utils.py:148-149): the model is the no-jitter schedule.
- `time.sleep`, `random.uniform` pauses and timestamps.
  - In the content agent, pauses are events in the trace.
  - Elsewhere they are dropped.
  - Timestamps in research data and the stored blog result are dropped.
- Logging throughout.
- Flask routes, sessions, templates and the literal text of the two sample posts in `main.py`: a post is named by the template that made it. The progress message strings are left out; statuses and percentages are kept.
- Unicode: `\w`, `str.isalnum`, `str.lower`, `str.strip` and `str.capitalize` are modelled on ASCII.
- Words.KeywordDensity: the density is an exact ratio of naturals rather than a float.
- Review.ReviewContent: the check `final < initial * 0.9` is modelled as `10 * final < 9 * initial`. These agree whenever the float product is exact; rounding of `initial * 0.9` for very large counts is not modelled.
- Seo.RewriteSoleHeading: the insertion point is stated only for a heading whose line occurs once. The whole-document `str.replace` can also rewrite a non-heading occurrence of the heading text, and can suffix a later heading twice. For example, in "## Abcd\n### Abcd" the first replacement also rewrites the tail of the second line. The model keeps this behaviour, but no lemma exhibits such an example.
- Seo.OptimizeHeadings: the contract states that the pass only inserts suffixes after qualifying headings' lines (undoing them restores the content) and when nothing changes. It does not say, for a document in general, which occurrence each suffix lands after; that is stated for a heading whose line occurs once (Seo.RewriteSoleHeading).
- Seo.HeadingAt: the unanchored pattern also matches a '#' in the middle of a line. The model keeps this behaviour, but no lemma exhibits an example.
- Research.FindTrendingTopic: an exception anywhere in the trend path, including one during the chosen topic's research, falls back to a picked topic. On the empty-results path a failing fallback research is caught once more and a second topic is picked; a failure of the research run from the `except` branch propagates as None.
- Research.ResearchChunks: the research text is cut by the corrected chunker (`Chunker.SplitTextIntoChunks`), not by the loop as written that agents/research_agent.py:176 calls. Where the written loop would cut differently or never finish (see Findings), the model's research differs from the source's, and a research that would hang in the source terminates here.
- Content.GenerateContent: the research text is passed directly. It stands for `research_data.get("synthesized_research", "")`.
- Content.ConclusionPoints: a heading present with a JSON null value is not distinguished from a missing heading. The typed outline has no null.
- App.GenerateBlogSpec: an exception inside `generate_blog` is a parameter saying after how many progress updates it is raised.
- Chunker.SplitTextIntoChunksLoop: the chunker (and `ChunkSpans`, `SplitTextIntoChunks`, `ChunkSpansTile`) requires `overlap < max_tokens * 4` whenever the text is longer than one window. Otherwise the loop of utils.py:192-216 never advances even when corrected: with max_tokens 50, overlap 200 and 1000 characters without a break, the end falls back to `start + 200`, so the next start is the same, and max_tokens 0 on a non-empty text stalls the same way. The one caller, agents/research_agent.py:176, passes the defaults 4000 and 200, which meet the requirement.
- Chunker.ChooseEnd: the corrected loop is shown to agree with the loop as written one step at a time. No single lemma proves that the two loops agree whenever the written one always advances.

## Findings

| source | as written | input that shows it | evidently intended | confidence | as-written member | corrected member |
|---|---|---|---|---|---|---|
| utils.py:184-217 | When no break is found past `start`, the space fallback keeps `end` at the last space. That can give `end <= start + overlap`, so `start = end - overlap` moves backwards and becomes negative. Python then clips the slices and `rfind` bounds, and the loop repeats from -200 forever. | `split_text_into_chunks("a " + "x" * 15999)` with the default 4000 tokens and 200 overlap | Every step advances past `start + overlap`, so the loop ends with chunks that tile the text | not executed | Chunker.DefaultParametersCanHang | Chunker.SplitTextIntoChunksLoop |
