/**
 * `create_outline` of `agents/planning_agent.py`: the keyword derivation from the research
 * metadata, the three parse tiers of the model's reply, and the fixed fallback outline.
 *
 * The model is an oracle `llm: Request -> Option<string>` (None when the call raises).
 * `json.loads` followed by reading the outline's fields is the oracle
 * `decode: string -> Option<Outline>`: None when the text is not JSON.
 */
module Planning {
  import opened Wrappers
  import opened Text
  import opened Words
  import opened Json
  import opened Research

  /** One subheading of a section; a missing title reads as "" and missing key points as []. */
  datatype Subheading = Subheading(title: string, keyPoints: seq<string>, targetWordCount: Option<int>)

  /** One section; the heading stays optional because one reader of it does not supply a default. */
  datatype Section = Section(
    heading: Option<string>,
    subheadings: seq<Subheading>,
    keyPoints: seq<string>,
    targetWordCount: Option<int>)

  datatype Outline = Outline(
    title: Option<string>,
    targetKeywords: seq<string>,
    estimatedWordCount: Option<int>,
    sections: seq<Section>)

  /** The prompt sent to the model. */
  datatype Request = OutlineRequest(topic: string, research: string, keywords: string)

  // ---------------------------------------------------------------- keyword derivation

  /** Every source's `extracted_keywords`, one list after the other; sources without them add nothing. */
  function AllKeywords(meta: seq<SourceMeta>): seq<string> {
    if |meta| == 0 then [] else meta[0].extractedKeywords.GetOr([]) + AllKeywords(meta[1..])
  }

  /** A keyword is gathered exactly when some source lists it. */
  lemma {:induction false} AllKeywordsFrom(meta: seq<SourceMeta>, w: string)
    ensures w in AllKeywords(meta) <==>
      exists i :: 0 <= i < |meta| && meta[i].extractedKeywords.Some? && w in meta[i].extractedKeywords.value
  {
    if |meta| > 0 {
      AllKeywordsFrom(meta[1..], w);
      assert forall i :: 1 <= i < |meta| ==> meta[1..][i - 1] == meta[i];
      if w in AllKeywords(meta[1..]) {
        var i :| 0 <= i < |meta[1..]| && meta[1..][i].extractedKeywords.Some? && w in meta[1..][i].extractedKeywords.value;
        assert meta[i + 1] == meta[1..][i];
      }
    }
  }

  /**
   * The keywords the outline is asked for: the given ones, or, when none are given and the
   * research has source metadata, the five most frequent extracted keywords joined by ", ".
   */
  function DeriveKeywords(keywords: string, data: ResearchData): (kw: string)
    ensures keywords != "" || data.sourceMetadata.None? ==> kw == keywords
  {
    if keywords == "" && data.sourceMetadata.Some? then
      Join(TopByFrequency(AllKeywords(data.sourceMetadata.value), 5), ", ")
    else keywords
  }

  /**
   * A derived keyword string joins at most five distinct gathered keywords, ranked by how
   * many sources list them, ties in first-seen order, none left out that outranks one kept.
   */
  lemma DeriveKeywordsSpec(data: ResearchData)
    requires data.sourceMetadata.Some?
    ensures var all := AllKeywords(data.sourceMetadata.value);
      var top := TopByFrequency(all, 5);
      && DeriveKeywords("", data) == Join(top, ", ")
      && |top| <= 5
      && (forall i :: 0 <= i < |top| ==> top[i] in all)
      && (forall i, j :: 0 <= i < j < |top| ==> top[i] != top[j] && RanksBefore(all, top[i], top[j]))
      && (forall w :: w in all && w !in top ==>
            |top| == 5 && forall i :: 0 <= i < |top| ==> RanksBefore(all, top[i], w))
  {
    TopByFrequencySpec(AllKeywords(data.sourceMetadata.value), 5);
  }

  // ---------------------------------------------------------------- fallback outline

  /** The comma-and-space separated keywords; none for an empty string. */
  function TargetKeywords(keywords: string): (ks: seq<string>)
    ensures keywords == "" <==> ks == []
  {
    if keywords == "" then [] else Split(keywords, ", ")
  }

  /**
   * The outline used when neither parse tier succeeds: titled after the topic, running
   * from an introduction to a conclusion in six sections, each with a heading and a target.
   */
  function FallbackOutline(topic: string, keywords: string): (o: Outline)
    ensures o.title == Some(topic + ": A Comprehensive Guide")
    ensures |o.sections| == 6
    ensures o.sections[0].heading == Some("Introduction") && o.sections[5].heading == Some("Conclusion")
    ensures forall i :: 0 <= i < 6 ==> o.sections[i].heading.Some? && o.sections[i].targetWordCount.Some?
  {
    Outline(
      Some(topic + ": A Comprehensive Guide"),
      TargetKeywords(keywords),
      Some(2000),
      [ Section(Some("Introduction"), [],
          ["Introduction to the topic", "Why it matters", "What will be covered"], Some(200)),
        Section(Some("Understanding " + topic),
          [ Subheading("Key Concepts", ["Important definitions", "Core principles"], Some(250)),
            Subheading("Current Trends", ["Recent developments", "Industry shifts"], Some(250)) ],
          [], Some(500)),
        Section(Some("Best Practices"),
          [ Subheading("Strategies for Implementation", ["Practical approaches", "Step-by-step guidance"], Some(300)),
            Subheading("Common Challenges", ["Potential obstacles", "Solutions"], Some(300)) ],
          [], Some(600)),
        Section(Some("Case Studies"),
          [ Subheading("Success Stories", ["Real-world examples", "Outcomes"], Some(300)) ],
          [], Some(300)),
        Section(Some("Future Directions"), [],
          ["Emerging trends", "Predictions", "Preparation strategies"], Some(200)),
        Section(Some("Conclusion"), [],
          ["Summary of key points", "Final thoughts", "Call to action"], Some(200)) ])
  }

  /** Sum of the declared section targets (an undeclared one counts 0). */
  function SectionTotal(ss: seq<Section>): int {
    if |ss| == 0 then 0 else ss[0].targetWordCount.GetOr(0) + SectionTotal(ss[1..])
  }

  /** Sum of the declared subheading targets (an undeclared one counts 0). */
  function SubheadingTotal(subs: seq<Subheading>): int {
    if |subs| == 0 then 0 else subs[0].targetWordCount.GetOr(0) + SubheadingTotal(subs[1..])
  }

  /** The fallback's section targets add up to its estimated length of 2000 words. */
  lemma FallbackBudget(topic: string, keywords: string)
    ensures var o := FallbackOutline(topic, keywords);
      o.estimatedWordCount == Some(SectionTotal(o.sections)) && SectionTotal(o.sections) == 2000
  {
    var ss := FallbackOutline(topic, keywords).sections;
    assert SectionTotal(ss[5..]) == 200;
    assert SectionTotal(ss[4..]) == 400;
    assert SectionTotal(ss[3..]) == 700;
    assert SectionTotal(ss[2..]) == 1300;
    assert SectionTotal(ss[1..]) == 1800;
  }

  /** In the fallback, a section with subheadings gives exactly its target to them. */
  lemma FallbackSubheadingBudgets(topic: string, keywords: string)
    ensures var ss := FallbackOutline(topic, keywords).sections;
      forall i :: 0 <= i < |ss| && |ss[i].subheadings| > 0 ==>
        SubheadingTotal(ss[i].subheadings) == ss[i].targetWordCount.GetOr(0)
  {
    var ss := FallbackOutline(topic, keywords).sections;
    assert SubheadingTotal(ss[1].subheadings[1..]) == 250;
    assert SubheadingTotal(ss[2].subheadings[1..]) == 300;
    assert SubheadingTotal(ss[3].subheadings[1..]) == 0;
  }

  /** A join is empty only when every part is empty and there is at most one. */
  lemma JoinNonEmpty(parts: seq<string>, sep: string)
    requires |parts| > 0 && parts[0] != ""
    ensures Join(parts, sep) != ""
  {
    if |parts| > 1 {
      assert Join(parts, sep)[0] == parts[0][0];
    }
  }

  /**
   * The fallback's keyword list undoes the ", " join of the derivation, as long as no
   * keyword is empty or contains ", ".
   */
  lemma TargetKeywordsOfJoin(ws: seq<string>)
    requires forall i :: 0 <= i < |ws| ==> ws[i] != "" && !Contains(ws[i], ", ")
    ensures TargetKeywords(Join(ws, ", ")) == ws
  {
    if |ws| > 0 {
      JoinNonEmpty(ws, ", ");
      SplitJoinRoundTrip(ws, ", ");
    }
  }

  /** A word has no comma, so it cannot contain ", ". */
  lemma WordHasNoCommaSpace(w: string)
    requires IsWord(w)
    ensures w != "" && !Contains(w, ", ")
  {
    forall j: nat ensures !OccursAt(w, ", ", j) {
      if j + 2 <= |w| {
        assert w[j..j + 2][0] == w[j];
      }
    }
    ContainsIff(w, ", ");
  }

  /**
   * When the research keywords are words (as extracted keywords are), the fallback lists
   * exactly the derived keywords, in ranking order.
   */
  lemma FallbackListsDerivedKeywords(topic: string, data: ResearchData)
    requires data.sourceMetadata.Some?
    requires forall w :: w in AllKeywords(data.sourceMetadata.value) ==> IsWord(w)
    ensures FallbackOutline(topic, DeriveKeywords("", data)).targetKeywords
      == TopByFrequency(AllKeywords(data.sourceMetadata.value), 5)
  {
    var all := AllKeywords(data.sourceMetadata.value);
    var top := TopByFrequency(all, 5);
    TopByFrequencySpec(all, 5);
    forall i | 0 <= i < |top| ensures top[i] != "" && !Contains(top[i], ", ") {
      WordHasNoCommaSpace(top[i]);
    }
    TargetKeywordsOfJoin(top);
  }

  /** The metadata the research stage writes lists words only. */
  lemma ResearchKeywordsAreWords(scraped: seq<(string, string)>)
    ensures forall w :: w in AllKeywords(Fold(scraped).meta) ==> IsWord(w)
  {
    forall w | w in AllKeywords(Fold(scraped).meta) ensures IsWord(w) {
      var meta := Fold(scraped).meta;
      AllKeywordsFrom(meta, w);
      var i :| 0 <= i < |meta| && meta[i].extractedKeywords.Some? && w in meta[i].extractedKeywords.value;
      FoldMetaFrom(scraped, i);
      var k :| 0 <= k < |scraped| && meta[i] == Meta(scraped[k].0, scraped[k].1);
      MetaSpec(scraped[k].0, scraped[k].1);
      var j :| 0 <= j < |meta[i].extractedKeywords.value| && meta[i].extractedKeywords.value[j] == w;
    }
  }

  /** Every metadata entry is the entry of one of the sources. */
  lemma {:induction false} FoldMetaFrom(scraped: seq<(string, string)>, i: nat)
    requires i < |Fold(scraped).meta|
    ensures exists k :: 0 <= k < |scraped| && Fold(scraped).meta[i] == Meta(scraped[k].0, scraped[k].1)
  {
    var init := scraped[..|scraped| - 1];
    var last := scraped[|scraped| - 1];
    assert Fold(scraped) == Step(Fold(init), last);
    if i < |Fold(init).meta| {
      FoldMetaFrom(init, i);
      var k :| 0 <= k < |init| && Fold(init).meta[i] == Meta(init[k].0, init[k].1);
      assert Fold(scraped).meta[i] == Fold(init).meta[i];
      assert init[k] == scraped[k];
    } else {
      assert Fold(scraped).meta[i] == Meta(last.0, last.1);
    }
  }

  // ---------------------------------------------------------------- create_outline

  /**
   * `create_outline(topic, research_data, keywords)`: None when the model call raises;
   * otherwise the reply decoded as is, else decoded after the fence clean-up, else the
   * fallback outline.
   */
  function CreateOutline(topic: string, data: ResearchData, keywords: string,
                         llm: Request -> Option<string>, decode: string -> Option<Outline>): (r: Option<Outline>)
    ensures var kw := DeriveKeywords(keywords, data);
      var reply := llm(OutlineRequest(topic, data.synthesized, kw));
      && (r.None? <==> reply.None?)
      && (reply.Some? && decode(reply.value).Some? ==> r == decode(reply.value))
      && (reply.Some? && decode(reply.value).None? && decode(CleanFence(reply.value)).Some? ==>
            r == decode(CleanFence(reply.value)))
      && (reply.Some? && decode(reply.value).None? && decode(CleanFence(reply.value)).None? ==>
            r == Some(FallbackOutline(topic, kw)))
  {
    var kw := DeriveKeywords(keywords, data);
    match llm(OutlineRequest(topic, data.synthesized, kw))
    case None => None
    case Some(reply) =>
      match decode(reply)
      case Some(o) => Some(o)
      case None =>
        match decode(CleanFence(reply))
        case Some(o) => Some(o)
        case None => Some(FallbackOutline(topic, kw))
  }

  /**
   * Whatever the model replies, an outline comes back when the call does not raise: a
   * decoded one, or the fallback with the derived keywords.
   */
  lemma CreateOutlineTotal(topic: string, data: ResearchData, keywords: string,
                           llm: Request -> Option<string>, decode: string -> Option<Outline>)
    requires llm(OutlineRequest(topic, data.synthesized, DeriveKeywords(keywords, data))).Some?
    ensures var r := CreateOutline(topic, data, keywords, llm, decode);
      var reply := llm(OutlineRequest(topic, data.synthesized, DeriveKeywords(keywords, data))).value;
      r.Some? && (r.value == FallbackOutline(topic, DeriveKeywords(keywords, data))
        || Some(r.value) == decode(reply) || Some(r.value) == decode(CleanFence(reply)))
  {
  }

  /**
   * A reply that wraps its JSON in a ```json fence and does not decode as is is read from
   * inside the fence, stripped.
   */
  lemma CreateOutlineFenced(topic: string, data: ResearchData, keywords: string, body: string,
                            llm: Request -> Option<string>, decode: string -> Option<Outline>)
    requires llm(OutlineRequest(topic, data.synthesized, DeriveKeywords(keywords, data))) == Some(OpenFence + body + CloseFence)
    requires decode(OpenFence + body + CloseFence).None? && decode(Strip(body)).Some?
    ensures CreateOutline(topic, data, keywords, llm, decode) == decode(Strip(body))
  {
    CleanFenceUnwraps(body);
  }
}
