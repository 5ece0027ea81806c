/**
 * The deterministic part of the SEO agent of `agents/seo_agent.py`: the keyword list
 * taken from the comma-separated keyword string, the three-tier reading of the analysis
 * reply (`analyze_seo`), the score-85 branch of `optimize_content`, the single internal
 * link marker (`_add_internal_linking_suggestions`) and the heading suffixing
 * (`_optimize_headings`).
 */
module Seo {
  import opened Wrappers
  import opened Text
  import opened Words
  import opened Json

  // ---------------------------------------------------------------- keyword list

  /** `[kw.strip() for kw in keywords.split(",")] if keywords else []`. */
  function KeywordList(keywords: string): (kws: seq<string>)
    ensures |kws| == 0 <==> keywords == ""
    ensures forall i :: 0 <= i < |kws| ==> Stripped(kws[i])
  {
    if keywords == "" then []
    else
      var kws := StripAll(Split(keywords, ","));
      assert forall i :: 0 <= i < |kws| ==> Stripped(kws[i]) by {
        forall i | 0 <= i < |kws| ensures Stripped(kws[i]) {
          StripIsStripped(Split(keywords, ",")[i]);
        }
      }
      kws
  }

  lemma StripIsStripped(s: string)
    ensures Stripped(Strip(s))
  {
  }

  /** `[p.strip() for p in parts]`. */
  function StripAll(parts: seq<string>): (r: seq<string>)
    ensures |r| == |parts|
    ensures forall i :: 0 <= i < |r| ==> r[i] == Strip(parts[i])
  {
    if |parts| == 0 then [] else [Strip(parts[0])] + StripAll(parts[1..])
  }

  /** Stripping a single leading space off a stripped string gives it back. */
  lemma StripLeadingSpace(lead: string, w: string)
    requires lead == "" || lead == " "
    requires Stripped(w)
    ensures Strip(lead + w) == w
  {
    StripFixesStripped(w);
    if lead == " " {
      assert (lead + w)[1..] == w;
      assert StripStart(lead + w) == StripStart(w);
    } else {
      assert lead + w == w;
    }
  }

  /** No occurrence of a one-character pattern in `w` means no such character in `w`. */
  lemma NoCharAt(w: string, c: char, k: nat)
    requires !Contains(w, [c]) && k < |w|
    ensures w[k] != c
  {
    NotContainsAt(w, [c], k);
    assert w[k..k + 1] == [w[k]];
  }

  predicate NoComma(w: string) {
    forall k :: 0 <= k < |w| ==> w[k] != ','
  }

  /** The first comma of `head + "," + rest` is the one after `head`. */
  lemma SplitAtFirstComma(head: string, rest: string)
    requires NoComma(head)
    ensures Split(head + "," + rest, ",") == [head] + Split(rest, ",")
  {
    var s := head + "," + rest;
    forall j: nat | j < |head|
      ensures !OccursAt(s, ",", j)
    {
      assert s[j..j + 1] == [head[j]];
    }
    assert s[|head|..|head| + 1] == ",";
    assert OccursAt(s, ",", |head|);
    assert FindFrom(s, ",", 0) == Some(|head|);
    assert s[..|head|] == head;
    assert s[|head| + 1..] == rest;
  }

  /** A comma-free string splits into itself. */
  lemma SplitNoComma(s: string)
    requires NoComma(s)
    ensures Split(s, ",") == [s]
  {
    forall j: nat
      ensures !OccursAt(s, ",", j)
    {
      if j + 1 <= |s| {
        assert s[j..j + 1] == [s[j]];
      }
    }
    assert FindFrom(s, ",", 0).None?;
  }

  lemma NoCommaLead(lead: string, w: string)
    requires lead == "" || lead == " "
    requires NoComma(w)
    ensures NoComma(lead + w)
  {
    forall k | 0 <= k < |lead + w| ensures (lead + w)[k] != ',' {
      if k >= |lead| {
        assert (lead + w)[k] == w[k - |lead|];
      }
    }
  }

  /** Splitting `lead + ", ".join(ws)` on "," and stripping each piece gives back `ws`. */
  lemma {:induction false} SplitCommaSpace(ws: seq<string>, lead: string)
    requires |ws| >= 1 && (lead == "" || lead == " ")
    requires forall i :: 0 <= i < |ws| ==> Stripped(ws[i]) && NoComma(ws[i])
    decreases |ws|
    ensures StripAll(Split(lead + Join(ws, ", "), ",")) == ws
  {
    if |ws| == 1 {
      SplitCommaSpaceOne(ws[0], lead);
      assert Join(ws, ", ") == ws[0];
    } else {
      StripLeadingSpace(lead, ws[0]);
      SplitCommaSpace(ws[1..], " ");
      SplitCommaSpaceStep(ws, lead);
    }
  }

  /** A single keyword, possibly after one space, splits and strips back to itself. */
  lemma SplitCommaSpaceOne(w: string, lead: string)
    requires lead == "" || lead == " "
    requires Stripped(w) && NoComma(w)
    ensures StripAll(Split(lead + w, ",")) == [w]
  {
    StripLeadingSpace(lead, w);
    NoCommaLead(lead, w);
    SplitNoComma(lead + w);
  }

  /** Stripping distributes over a leading element. */
  lemma StripAllCons(head: string, tail: seq<string>)
    ensures StripAll([head] + tail) == [Strip(head)] + StripAll(tail)
  {
    var l := StripAll([head] + tail);
    var r := [Strip(head)] + StripAll(tail);
    forall i | 0 <= i < |l| ensures l[i] == r[i] {
      if i > 0 {
        assert ([head] + tail)[i] == tail[i - 1];
      }
    }
  }

  lemma Assoc(a: string, b: string, c: string)
    ensures a + (b + c) == (a + b) + c
  {
  }

  /** `lead + ", ".join(ws)` read as the first piece, a comma, and the rest after it. */
  lemma JoinRegroup(lead: string, ws: seq<string>)
    requires |ws| >= 2
    ensures lead + Join(ws, ", ") == (lead + ws[0]) + "," + (" " + Join(ws[1..], ", "))
  {
    var rest := Join(ws[1..], ", ");
    var head := lead + ws[0];
    calc {
      lead + Join(ws, ", ");
      lead + ((ws[0] + ", ") + rest);
      { Assoc(lead, ws[0] + ", ", rest); }
      (lead + (ws[0] + ", ")) + rest;
      { Assoc(lead, ws[0], ", "); }
      (head + ", ") + rest;
      { assert ", " == "," + " "; Assoc(head, ",", " "); }
      ((head + ",") + " ") + rest;
      { Assoc(head + ",", " ", rest); }
      (head + ",") + (" " + rest);
    }
  }

  /** One part further: the head piece is `lead + ws[0]`, the rest is the split of the remainder. */
  lemma SplitCommaSpaceStep(ws: seq<string>, lead: string)
    requires |ws| >= 2 && NoComma(ws[0]) && (lead == "" || lead == " ")
    requires Strip(lead + ws[0]) == ws[0]
    requires StripAll(Split(" " + Join(ws[1..], ", "), ",")) == ws[1..]
    ensures StripAll(Split(lead + Join(ws, ", "), ",")) == ws
  {
    var head := lead + ws[0];
    NoCommaLead(lead, ws[0]);
    var rest := " " + Join(ws[1..], ", ");
    var tail := Split(rest, ",");
    calc {
      StripAll(Split(lead + Join(ws, ", "), ","));
      { JoinRegroup(lead, ws); }
      StripAll(Split(head + "," + rest, ","));
      { SplitAtFirstComma(head, rest); }
      StripAll([head] + tail);
      { StripAllCons(head, tail); }
      [Strip(head)] + StripAll(tail);
      [ws[0]] + ws[1..];
      ws;
    }
  }

  /**
   * A keyword string built with `", ".join` from stripped, comma-free, non-empty keywords
   * (as the planning stage builds it) is read back as exactly those keywords.
   */
  lemma KeywordListOfJoin(ws: seq<string>)
    requires |ws| >= 1
    requires forall i :: 0 <= i < |ws| ==> ws[i] != "" && Stripped(ws[i]) && !Contains(ws[i], ",")
    ensures KeywordList(Join(ws, ", ")) == ws
  {
    forall i | 0 <= i < |ws|
      ensures NoComma(ws[i])
    {
      forall k | 0 <= k < |ws[i]| ensures ws[i][k] != ',' {
        NoCharAt(ws[i], ',', k);
      }
    }
    SplitCommaSpace(ws, "");
    assert "" + Join(ws, ", ") == Join(ws, ", ");
    assert |Join(ws, ", ")| >= |ws[0]| by {
      if |ws| > 1 {
        assert Join(ws, ", ") == ws[0] + ", " + Join(ws[1..], ", ");
      }
    }
  }

  /** `calculate_keyword_density(content, keyword_list) if keyword_list else 0` as a JSON number. */
  function DensityValue(content: string, kws: seq<string>): (d: Value)
    ensures d.Num? && d.num >= 0
    ensures |kws| == 0 ==> d == Int(0)
  {
    var r := KeywordDensity(content, kws);
    Num(r.num, r.den)
  }

  // ---------------------------------------------------------------- analysis reply

  /** The two prompts of the agent. */
  datatype Request =
    | Analysis(topic: string, keywords: string, content: string)
    | Rewrite(topic: string, keywords: string, content: string)

  /** `v.get(k)` on an object; None for a missing key or a value that is not an object. */
  function Get(v: Value, k: string): Option<Value> {
    if v.Obj? && k in v.fields then Some(v.fields[k]) else None
  }

  /** The object returned when the reply could not be decoded even after clean-up. */
  function ParseFallback(density: Value, words: nat): (r: Value)
    ensures Get(r, "overall_score") == Some(Int(50))
    ensures Get(r, "keyword_analysis").Some?
         && Get(Get(r, "keyword_analysis").value, "primary_keyword_density") == Some(density)
  {
    Obj(map[
      "keyword_analysis" := Obj(map[
        "primary_keyword_density" := density,
        "keyword_distribution" := Str("Unable to assess"),
        "suggestions" := Arr([Str("Ensure keywords are distributed throughout the content")])]),
      "structure_analysis" := Obj(map[
        "heading_quality" := Str("Unable to assess"),
        "content_organization" := Str("Unable to assess"),
        "suggestions" := Arr([Str("Review heading structure"), Str("Ensure logical content flow")])]),
      "content_quality" := Obj(map[
        "readability_score" := Str("Unable to assess"),
        "content_depth" := Str("Content contains " + Decimal(words) + " words"),
        "suggestions" := Arr([Str("Ensure content is comprehensive"), Str("Check for readability")])]),
      "overall_score" := Int(50),
      "priority_improvements" := Arr([Str("Optimize keyword usage"), Str("Review content structure")])])
  }

  /** The object returned when the analysis call or the density insertion raised. */
  function ErrorFallback(density: Value, words: nat): (r: Value)
    ensures Get(r, "overall_score") == Some(Int(0))
    ensures Get(r, "keyword_analysis").Some?
         && Get(Get(r, "keyword_analysis").value, "primary_keyword_density") == Some(density)
  {
    Obj(map[
      "keyword_analysis" := Obj(map[
        "primary_keyword_density" := density,
        "keyword_distribution" := Str("Error in analysis"),
        "suggestions" := Arr([Str("Review keyword usage manually")])]),
      "structure_analysis" := Obj(map[
        "heading_quality" := Str("Error in analysis"),
        "content_organization" := Str("Error in analysis"),
        "suggestions" := Arr([Str("Review heading structure manually")])]),
      "content_quality" := Obj(map[
        "readability_score" := Str("Error in analysis"),
        "content_depth" := Str("Content contains " + Decimal(words) + " words"),
        "suggestions" := Arr([Str("Review content manually")])]),
      "overall_score" := Int(0),
      "priority_improvements" := Arr([Str("Retry SEO analysis")])])
  }

  /**
   * Stores the density under "calculated_keyword_density" inside the "keyword_analysis" entry,
   * when there is one, of a decoded value of any shape; None where the source would raise: a
   * membership test on a number, boolean or null, or a string-keyed lookup into a list, a
   * string or a non-object entry.
   */
  function InsertDensity(v: Value, d: Value): (r: Option<Value>)
    ensures v.Obj? && "keyword_analysis" !in v.fields ==> r == Some(v)
    ensures v.Obj? && "keyword_analysis" in v.fields ==> (r.Some? <==> v.fields["keyword_analysis"].Obj?)
    ensures !v.Obj? && r.Some? ==> r.value == v
    ensures r.Some? && v.Obj? && "keyword_analysis" in v.fields ==>
      var ka := v.fields["keyword_analysis"];
      var m := r.value;
      && m.Obj? && m.fields.Keys == v.fields.Keys
      && (forall k :: k in v.fields && k != "keyword_analysis" ==> m.fields[k] == v.fields[k])
      && m.fields["keyword_analysis"].Obj?
      && m.fields["keyword_analysis"].fields.Keys == ka.fields.Keys + {"calculated_keyword_density"}
      && m.fields["keyword_analysis"].fields["calculated_keyword_density"] == d
      && (forall k :: k in ka.fields && k != "calculated_keyword_density" ==>
            m.fields["keyword_analysis"].fields[k] == ka.fields[k])
  {
    match v
    case Obj(fields) =>
      if "keyword_analysis" !in fields then Some(v)
      else
        (match fields["keyword_analysis"]
         case Obj(ka) => Some(Obj(fields["keyword_analysis" := Obj(ka["calculated_keyword_density" := d])]))
         case _ => None)
    case Arr(items) => if Str("keyword_analysis") in items then None else Some(v)
    case Str(s) => if Contains(s, "keyword_analysis") then None else Some(v)
    case _ => None
  }

  /**
   * `analyze_seo(content, topic, keywords)`. `llm` answers the analysis prompt or raises
   * (None); `parse` is `json.loads` (None: a decode error). A first decode must give an
   * object, because the success log line calls `.get` on it.
   */
  function AnalyzeSeo(content: string, topic: string, keywords: string,
                      llm: Request -> Option<string>, parse: string -> Option<Value>): (r: Value)
    ensures var d := DensityValue(content, KeywordList(keywords));
      var failed := ErrorFallback(d, CountWords(content));
      match llm(Analysis(topic, keywords, content))
      case None => r == failed
      case Some(raw) =>
        match parse(raw)
        case Some(v) =>
          if v.Obj? && InsertDensity(v, d).Some? then r == InsertDensity(v, d).value else r == failed
        case None =>
          match parse(CleanFence(raw))
          case Some(v) => if InsertDensity(v, d).Some? then r == InsertDensity(v, d).value else r == failed
          case None => r == ParseFallback(d, CountWords(content))
  {
    var d := DensityValue(content, KeywordList(keywords));
    var failed := ErrorFallback(d, CountWords(content));
    match llm(Analysis(topic, keywords, content))
    case None => failed
    case Some(raw) =>
      match parse(raw)
      case Some(v) =>
        if !v.Obj? then failed
        else (match InsertDensity(v, d) case Some(a) => a case None => failed)
      case None =>
        match parse(CleanFence(raw))
        case Some(v) => (match InsertDensity(v, d) case Some(a) => a case None => failed)
        case None => ParseFallback(d, CountWords(content))
  }

  /** A decoded object without `keyword_analysis` is returned exactly as decoded. */
  lemma AnalyzeSeoKeepsReply(content: string, topic: string, keywords: string,
                             llm: Request -> Option<string>, parse: string -> Option<Value>, raw: string)
    requires llm(Analysis(topic, keywords, content)) == Some(raw)
    requires parse(raw).Some? && parse(raw).value.Obj? && "keyword_analysis" !in parse(raw).value.fields
    ensures AnalyzeSeo(content, topic, keywords, llm, parse) == parse(raw).value
  {
  }

  /**
   * A reply that decodes to an object whose "keyword_analysis" is an object comes back with
   * the local density added there and every other field as decoded.
   */
  lemma AnalyzeSeoInsertsDensity(content: string, topic: string, keywords: string,
                                 llm: Request -> Option<string>, parse: string -> Option<Value>, raw: string)
    requires llm(Analysis(topic, keywords, content)) == Some(raw)
    requires parse(raw).Some? && parse(raw).value.Obj? && "keyword_analysis" in parse(raw).value.fields
    requires parse(raw).value.fields["keyword_analysis"].Obj?
    ensures var v := parse(raw).value;
      var r := AnalyzeSeo(content, topic, keywords, llm, parse);
      && r.Obj? && r.fields.Keys == v.fields.Keys
      && (forall k :: k in v.fields && k != "keyword_analysis" ==> r.fields[k] == v.fields[k])
      && Get(r.fields["keyword_analysis"], "calculated_keyword_density") == Some(DensityValue(content, KeywordList(keywords)))
  {
  }

  /** A reply that decodes neither raw nor cleaned gives the score-50 fallback carrying the local density. */
  lemma AnalyzeSeoUndecodable(content: string, topic: string, keywords: string,
                              llm: Request -> Option<string>, parse: string -> Option<Value>, raw: string)
    requires llm(Analysis(topic, keywords, content)) == Some(raw)
    requires parse(raw).None? && parse(CleanFence(raw)).None?
    ensures var r := AnalyzeSeo(content, topic, keywords, llm, parse);
      && Get(r, "overall_score") == Some(Int(50))
      && Get(Get(r, "keyword_analysis").value, "primary_keyword_density")
         == Some(DensityValue(content, KeywordList(keywords)))
  {
  }

  // ---------------------------------------------------------------- internal link

  const LinkTag: string := "[INTERNAL LINK SUGGESTION"

  /** The related-topic table, in its insertion order. */
  const RelatedTopics: seq<(string, string)> := [
    ("Employee Retention", "employee retention strategies"),
    ("Remote Work", "remote work best practices"),
    ("Diversity and Inclusion", "diversity and inclusion in the workplace"),
    ("Performance Management", "effective performance management"),
    ("Employee Wellness", "employee wellness programs"),
    ("HR Technology", "hr technology trends"),
    ("Recruitment", "recruitment best practices"),
    ("Employee Engagement", "employee engagement strategies"),
    ("Workplace Culture", "building positive workplace culture"),
    ("Leadership Development", "leadership development programs")
  ]

  /** The text inserted after a matched mention. */
  function Marker(key: string, linkTopic: string): (m: string)
    ensures |m| > |LinkTag| && m[1..1 + |LinkTag|] == LinkTag
  {
    " " + LinkTag + ": " + key + " | " + linkTopic + "]"
  }

  /** The loop of `_add_internal_linking_suggestions` over the remaining `table` entries. */
  function LinkFrom(c: string, topic: string, table: seq<(string, string)>): string
    decreases |table|
  {
    if |table| == 0 then c
    else
      var (key, linkTopic) := table[0];
      if Contains(Lower(topic), Lower(key)) then LinkFrom(c, topic, table[1..])
      else
        match FirstWholeWord(c, key, 0)
        case None => LinkFrom(c, topic, table[1..])
        case Some(p) =>
          if Contains(c, LinkTag) then LinkFrom(c, topic, table[1..])
          else LinkFrom(c[..p + |key|] + Marker(key, linkTopic) + c[p + |key|..], topic, table[1..])
  }

  /** `_add_internal_linking_suggestions(content, topic)`. */
  function AddInternalLink(content: string, topic: string): string {
    LinkFrom(content, topic, RelatedTopics)
  }

  /** Where a marker goes: just after the first whole-word mention of `key`. */
  datatype Site = Site(start: nat, key: string, linkTopic: string)

  /**
   * Reference definition: the first table entry, in table order, that the topic does not
   * already name and that the text mentions as a whole word (case-insensitively).
   */
  function LinkSite(c: string, topic: string, table: seq<(string, string)>): (r: Option<Site>)
    decreases |table|
    ensures r.Some? ==> (r.value.key, r.value.linkTopic) in table
    ensures r.Some? ==> !Contains(Lower(topic), Lower(r.value.key))
    ensures r.Some? ==> FirstWholeWord(c, r.value.key, 0) == Some(r.value.start)
    ensures r.Some? ==> r.value.start + |r.value.key| <= |c|
  {
    if |table| == 0 then None
    else
      var (key, linkTopic) := table[0];
      if Contains(Lower(topic), Lower(key)) then LinkSite(c, topic, table[1..])
      else
        match FirstWholeWord(c, key, 0)
        case None => LinkSite(c, topic, table[1..])
        case Some(p) => Some(Site(p, key, linkTopic))
  }

  /** Once a marker is present the loop changes nothing. */
  lemma {:induction false} LinkFromMarked(c: string, topic: string, table: seq<(string, string)>)
    requires Contains(c, LinkTag)
    decreases |table|
    ensures LinkFrom(c, topic, table) == c
  {
    if |table| > 0 {
      LinkFromMarked(c, topic, table[1..]);
    }
  }

  /** Inserting a marker makes the text contain the tag. */
  lemma InsertMarks(c: string, e: nat, key: string, linkTopic: string)
    requires e <= |c|
    ensures Contains(c[..e] + Marker(key, linkTopic) + c[e..], LinkTag)
  {
    var m := Marker(key, linkTopic);
    var s := c[..e] + m + c[e..];
    assert s[e + 1..e + 1 + |LinkTag|] == m[1..1 + |LinkTag|];
    ContainsAt(s, LinkTag, e + 1);
  }

  /** The text with the marker for `site` inserted, or unchanged without a site. */
  function Linked(c: string, site: Option<Site>): string
    requires site.Some? ==> site.value.start + |site.value.key| <= |c|
  {
    match site
    case None => c
    case Some(st) =>
      var e := st.start + |st.key|;
      c[..e] + Marker(st.key, st.linkTopic) + c[e..]
  }

  /**
   * Without a marker in the text, exactly one marker is inserted, at the reference site,
   * or nothing happens when no entry qualifies.
   */
  lemma {:induction false} LinkFromSpec(c: string, topic: string, table: seq<(string, string)>)
    requires !Contains(c, LinkTag)
    decreases |table|
    ensures LinkFrom(c, topic, table) == Linked(c, LinkSite(c, topic, table))
  {
    if |table| > 0 {
      var key := table[0].0;
      var linkTopic := table[0].1;
      if Contains(Lower(topic), Lower(key)) {
        LinkFromSpec(c, topic, table[1..]);
      } else {
        var f := FirstWholeWord(c, key, 0);
        if f.None? {
          LinkFromSpec(c, topic, table[1..]);
        } else {
          LinkFromFound(c, topic, table);
        }
      }
    }
  }

  /** The first entry that qualifies and is mentioned gets the marker; later entries see it and stop. */
  lemma LinkFromFound(c: string, topic: string, table: seq<(string, string)>)
    requires !Contains(c, LinkTag) && |table| > 0
    requires !Contains(Lower(topic), Lower(table[0].0)) && FirstWholeWord(c, table[0].0, 0).Some?
    ensures LinkFrom(c, topic, table) == Linked(c, LinkSite(c, topic, table))
  {
    var key := table[0].0;
    var linkTopic := table[0].1;
    var p := FirstWholeWord(c, key, 0).value;
    var e := p + |key|;
    var c2 := c[..e] + Marker(key, linkTopic) + c[e..];
    calc {
      LinkFrom(c, topic, table);
      { LinkFromInserts(c, topic, table); }
      LinkFrom(c2, topic, table[1..]);
      { InsertMarks(c, e, key, linkTopic); LinkFromMarked(c2, topic, table[1..]); }
      c2;
      { LinkSiteFound(c, topic, table); }
      Linked(c, LinkSite(c, topic, table));
    }
  }

  /** The reference site is the first entry's when that entry qualifies and is mentioned. */
  lemma LinkSiteFound(c: string, topic: string, table: seq<(string, string)>)
    requires |table| > 0
    requires !Contains(Lower(topic), Lower(table[0].0)) && FirstWholeWord(c, table[0].0, 0).Some?
    ensures LinkSite(c, topic, table) == Some(Site(FirstWholeWord(c, table[0].0, 0).value, table[0].0, table[0].1))
  {
    assert table[0] == (table[0].0, table[0].1);
  }

  /** One step of the loop at an entry that qualifies and is mentioned: the marker goes in. */
  lemma LinkFromInserts(c: string, topic: string, table: seq<(string, string)>)
    requires !Contains(c, LinkTag) && |table| > 0
    requires !Contains(Lower(topic), Lower(table[0].0)) && FirstWholeWord(c, table[0].0, 0).Some?
    ensures var e := FirstWholeWord(c, table[0].0, 0).value + |table[0].0|;
      LinkFrom(c, topic, table) == LinkFrom(c[..e] + Marker(table[0].0, table[0].1) + c[e..], topic, table[1..])
  {
    assert table[0] == (table[0].0, table[0].1);
  }

  /** Cutting an inserted piece back out restores the text. */
  lemma CutInserted(c: string, e: nat, m: string)
    requires e <= |c|
    ensures var r := c[..e] + m + c[e..]; r[..e] + r[e + |m|..] == c
  {
    var r := c[..e] + m + c[e..];
    assert r[..e] == c[..e];
    assert r[e + |m|..] == c[e..];
  }

  /** A text that already carries a marker is returned unchanged. */
  lemma AddInternalLinkMarked(content: string, topic: string)
    requires Contains(content, LinkTag)
    ensures AddInternalLink(content, topic) == content
  {
    LinkFromMarked(content, topic, RelatedTopics);
  }

  /**
   * Otherwise at most one marker is inserted, right after the mention the reference site
   * names, and cutting it out restores the text.
   */
  lemma AddInternalLinkInserts(content: string, topic: string)
    requires !Contains(content, LinkTag)
    ensures AddInternalLink(content, topic) == Linked(content, LinkSite(content, topic, RelatedTopics))
    ensures LinkSite(content, topic, RelatedTopics).Some? ==>
      var site := LinkSite(content, topic, RelatedTopics).value;
      var e := site.start + |site.key|;
      var m := Marker(site.key, site.linkTopic);
      var r := AddInternalLink(content, topic);
      r[..e] + r[e + |m|..] == content
  {
    LinkFromSpec(content, topic, RelatedTopics);
    var site := LinkSite(content, topic, RelatedTopics);
    if site.Some? {
      CutInserted(content, site.value.start + |site.value.key|, Marker(site.value.key, site.value.linkTopic));
    }
  }

  // ---------------------------------------------------------------- headings

  /** One match of `(#+)\s+(.*?)$` under `re.MULTILINE`; `end` is where the match stops. */
  datatype Heading = Heading(markers: string, text: string, end: nat)

  function HashEnd(s: string, i: nat): (r: nat)
    requires i <= |s|
    decreases |s| - i
    ensures i <= r <= |s|
    ensures forall k :: i <= k < r ==> s[k] == '#'
    ensures r == |s| || s[r] != '#'
  {
    if i < |s| && s[i] == '#' then HashEnd(s, i + 1) else i
  }

  function SpaceEnd(s: string, i: nat): (r: nat)
    requires i <= |s|
    decreases |s| - i
    ensures i <= r <= |s|
    ensures forall k :: i <= k < r ==> IsSpace(s[k])
    ensures r == |s| || !IsSpace(s[r])
  {
    if i < |s| && IsSpace(s[i]) then SpaceEnd(s, i + 1) else i
  }

  /** Where `$` first holds at or after `i` in multi-line mode: the next newline, or the end. */
  function LineEnd(s: string, i: nat): (r: nat)
    requires i <= |s|
    decreases |s| - i
    ensures i <= r <= |s|
    ensures forall k :: i <= k < r ==> s[k] != '\n'
    ensures r == |s| || s[r] == '\n'
  {
    if i < |s| && s[i] != '\n' then LineEnd(s, i + 1) else i
  }

  /**
   * The pattern tried at position `p`: a run of `#` (greedy, so the whole run), at least
   * one white-space character (greedy, newlines included), then the rest of that line.
   * The pattern is not anchored, so a `#` in the middle of a line can start a heading.
   */
  function HeadingAt(s: string, p: nat): (r: Option<Heading>)
    ensures r.Some? ==> p < r.value.end <= |s|
    ensures r.Some? ==> |r.value.markers| > 0 && forall k :: 0 <= k < |r.value.markers| ==> r.value.markers[k] == '#'
    ensures r.Some? ==> forall k :: 0 <= k < |r.value.text| ==> r.value.text[k] != '\n'
  {
    if p < |s| && s[p] == '#' then
      var m := HashEnd(s, p);
      if m < |s| && IsSpace(s[m]) then
        var t := SpaceEnd(s, m);
        var e := LineEnd(s, t);
        Some(Heading(s[p..m], s[t..e], e))
      else None
    else None
  }

  /** `re.finditer(heading_pattern, s, re.MULTILINE)` from position `p`. */
  function Headings(s: string, p: nat): seq<Heading>
    decreases |s| - p
  {
    if p >= |s| then []
    else
      match HeadingAt(s, p)
      case Some(h) => [h] + Headings(s, h.end)
      case None => Headings(s, p + 1)
  }

  /** `any(keyword.lower() in text.lower() for keyword in kws)`. */
  predicate KeywordPresent(text: string, kws: seq<string>)
    decreases |kws|
  {
    |kws| > 0 && (Contains(Lower(text), Lower(kws[0])) || KeywordPresent(text, kws[1..]))
  }

  /** The heading is rewritten: no keyword in it, one to three `#`, and 3 < length < 50. */
  predicate Qualifies(h: Heading, kws: seq<string>) {
    && !KeywordPresent(h.text, kws)
    && h.markers in {"#", "##", "###"}
    && 3 < |h.text| < 50
  }

  function Original(h: Heading): string {
    h.markers + " " + h.text
  }

  function Suffixed(h: Heading, kw: string): string {
    Original(h) + ": " + Capitalize(kw)
  }

  /** The loop over the headings found in the original text, each rewrite a global `str.replace`. */
  function RewriteHeadings(c: string, hs: seq<Heading>, kws: seq<string>): string
    requires |kws| > 0
    decreases |hs|
  {
    if |hs| == 0 then c
    else
      var h := hs[0];
      var c' := if Qualifies(h, kws) then ReplaceAll(c, Original(h), Suffixed(h, kws[0])) else c;
      RewriteHeadings(c', hs[1..], kws)
  }

  /** The keyword list of `_optimize_headings`: the keywords, else the topic, else nothing. */
  function HeadingKeywords(topic: string, keywords: string): (kws: seq<string>)
    ensures keywords != "" ==> kws == KeywordList(keywords)
    ensures keywords == "" && topic != "" ==> kws == [topic]
    ensures |kws| == 0 <==> keywords == "" && topic == ""
  {
    var kws := KeywordList(keywords);
    if |kws| == 0 && topic != "" then [topic] else kws
  }

  /**
   * `_optimize_headings(content, topic, keywords)`. It only inserts suffixes: undoing the
   * replacement of every qualifying heading found in the content gives the content back,
   * and with no keyword, no topic or no qualifying heading nothing changes.
   */
  function OptimizeHeadings(content: string, topic: string, keywords: string): (r: string)
    ensures keywords == "" && topic == "" ==> r == content
    ensures var kws := HeadingKeywords(topic, keywords);
      |kws| > 0 ==> UndoHeadings(r, Headings(content, 0), kws) == content
    ensures var kws := HeadingKeywords(topic, keywords);
      var hs := Headings(content, 0);
      (forall i :: 0 <= i < |hs| ==> !Qualifies(hs[i], kws)) ==> r == content
  {
    var kws := HeadingKeywords(topic, keywords);
    if |kws| == 0 then content
    else
      var hs := Headings(content, 0);
      RewriteHeadingsUndo(content, hs, kws);
      if forall i :: 0 <= i < |hs| ==> !Qualifies(hs[i], kws) then
        RewriteNothingQualifies(content, hs, kws);
        RewriteHeadings(content, hs, kws)
      else RewriteHeadings(content, hs, kws)
  }

  /** Replaces, last heading first, each suffixed qualifying heading by the heading as it was. */
  function UndoHeadings(r: string, hs: seq<Heading>, kws: seq<string>): string
    requires |kws| > 0
    decreases |hs|
  {
    if |hs| == 0 then r
    else
      var u := UndoHeadings(r, hs[1..], kws);
      if Qualifies(hs[0], kws) then ReplaceAll(u, Suffixed(hs[0], kws[0]), Original(hs[0])) else u
  }

  /** The heading loop only inserts suffixes: undoing its replacements in reverse order gives the input back. */
  lemma {:induction false} RewriteHeadingsUndo(c: string, hs: seq<Heading>, kws: seq<string>)
    requires |kws| > 0
    decreases |hs|
    ensures UndoHeadings(RewriteHeadings(c, hs, kws), hs, kws) == c
  {
    if |hs| > 0 {
      var h := hs[0];
      var c' := if Qualifies(h, kws) then ReplaceAll(c, Original(h), Suffixed(h, kws[0])) else c;
      RewriteHeadingsUndo(c', hs[1..], kws);
      if Qualifies(h, kws) {
        assert Suffixed(h, kws[0]) == Original(h) + (": " + Capitalize(kws[0]));
        ReplaceAllUndo(c, Original(h), ": " + Capitalize(kws[0]));
      }
    }
  }

  /** Headings that do not qualify are never touched: with none qualifying nothing changes. */
  lemma {:induction false} RewriteNothingQualifies(c: string, hs: seq<Heading>, kws: seq<string>)
    requires |kws| > 0
    requires forall i :: 0 <= i < |hs| ==> !Qualifies(hs[i], kws)
    decreases |hs|
    ensures RewriteHeadings(c, hs, kws) == c
  {
    if |hs| > 0 {
      RewriteNothingQualifies(c, hs[1..], kws);
    }
  }

  /** A keyword string without commas is the one keyword it names. */
  lemma OneKeyword(kw: string)
    requires kw != "" && Stripped(kw) && NoComma(kw)
    ensures HeadingKeywords("", kw) == [kw]
  {
    SplitNoComma(kw);
    StripFixesStripped(kw);
    assert StripAll([kw]) == [kw];
  }

  /** The `#` run starting at `i` ends exactly at `j`. */
  lemma {:induction false} HashRun(s: string, i: nat, j: nat)
    requires i <= j <= |s|
    requires forall k :: i <= k < j ==> s[k] == '#'
    requires j == |s| || s[j] != '#'
    decreases j - i
    ensures HashEnd(s, i) == j
  {
    if i < j {
      HashRun(s, i + 1, j);
    }
  }

  /** The white-space run starting at `i` ends exactly at `j`. */
  lemma {:induction false} SpaceRun(s: string, i: nat, j: nat)
    requires i <= j <= |s|
    requires forall k :: i <= k < j ==> IsSpace(s[k])
    requires j == |s| || !IsSpace(s[j])
    decreases j - i
    ensures SpaceEnd(s, i) == j
  {
    if i < j {
      SpaceRun(s, i + 1, j);
    }
  }

  /** The line starting at `i` has no newline before the end of the text. */
  lemma {:induction false} LineRun(s: string, i: nat)
    requires i <= |s|
    requires forall k :: i <= k < |s| ==> s[k] != '\n'
    decreases |s| - i
    ensures LineEnd(s, i) == |s|
  {
    if i < |s| {
      LineRun(s, i + 1);
    }
  }

  /** At the start of `markers + " " + text` the pattern matches the whole line. */
  lemma HeadingAtLine(markers: string, text: string)
    requires |markers| > 0 && forall k :: 0 <= k < |markers| ==> markers[k] == '#'
    requires |text| > 0 && !IsSpace(text[0])
    requires forall k :: 0 <= k < |text| ==> text[k] != '\n'
    ensures HeadingAt(markers + " " + text, 0) == Some(Heading(markers, text, |markers| + 1 + |text|))
  {
    var s := markers + " " + text;
    var m := |markers|;
    assert s[0..m] == markers && s[m] == ' ' && s[m + 1..|s|] == text;
    HashRun(s, 0, m);
    SpaceRun(s, m, m + 1);
    assert forall k :: m + 1 <= k < |s| ==> s[k] == text[k - (m + 1)];
    LineRun(s, m + 1);
  }

  /** A match that runs to the end of the text is the only one. */
  lemma HeadingsOfOne(s: string, h: Heading)
    requires |s| > 0 && HeadingAt(s, 0) == Some(h) && h.end == |s|
    ensures Headings(s, 0) == [h]
  {
    assert Headings(s, |s|) == [];
  }

  /** A one-line document `markers + " " + text` is one heading match covering all of it. */
  lemma HeadingLine(markers: string, text: string)
    requires |markers| > 0 && forall k :: 0 <= k < |markers| ==> markers[k] == '#'
    requires |text| > 0 && !IsSpace(text[0])
    requires forall k :: 0 <= k < |text| ==> text[k] != '\n'
    ensures Headings(markers + " " + text, 0) == [Heading(markers, text, |markers| + 1 + |text|)]
  {
    HeadingAtLine(markers, text);
    HeadingsOfOne(markers + " " + text, Heading(markers, text, |markers| + 1 + |text|));
  }

  /** Replacing a whole string by something else gives that something else. */
  lemma ReplaceWhole(s: string, rep: string)
    requires |s| > 0
    ensures ReplaceAll(s, s, rep) == rep
  {
    assert s[..|s|] == s;
    assert s[|s|..] == "";
  }

  /**
   * A text that is one short heading without the keyword gets ": " and the capitalised
   * keyword appended.
   */
  lemma SingleHeadingSuffixed(markers: string, text: string, kw: string)
    requires markers in {"#", "##", "###"}
    requires 3 < |text| < 50 && !IsSpace(text[0])
    requires forall k :: 0 <= k < |text| ==> text[k] != '\n'
    requires kw != "" && Stripped(kw) && NoComma(kw)
    requires !Contains(Lower(text), Lower(kw))
    ensures OptimizeHeadings(markers + " " + text, "", kw) == markers + " " + text + ": " + Capitalize(kw)
  {
    var s := markers + " " + text;
    var h := Heading(markers, text, |s|);
    SingleHeadingFound(markers, text, kw);
    assert Original(h) == s;
    SuffixOne(h, kw);
  }

  /** On such a line the optimiser walks exactly one heading with the one keyword. */
  lemma SingleHeadingFound(markers: string, text: string, kw: string)
    requires markers in {"#", "##", "###"}
    requires |text| > 0 && !IsSpace(text[0])
    requires forall k :: 0 <= k < |text| ==> text[k] != '\n'
    requires kw != "" && Stripped(kw) && NoComma(kw)
    ensures var s := markers + " " + text;
      OptimizeHeadings(s, "", kw) == RewriteHeadings(s, [Heading(markers, text, |s|)], [kw])
  {
    OneKeyword(kw);
    MarkersAreHashes(markers);
    HeadingLine(markers, text);
    OptimizeOneHeading(markers + " " + text, kw, Heading(markers, text, |markers| + 1 + |text|));
  }

  /** One to three `#` form a non-empty run of `#`. */
  lemma MarkersAreHashes(markers: string)
    requires markers in {"#", "##", "###"}
    ensures |markers| > 0 && forall k :: 0 <= k < |markers| ==> markers[k] == '#'
  {
  }

  lemma OptimizeOneHeading(s: string, kw: string, h: Heading)
    requires HeadingKeywords("", kw) == [kw] && Headings(s, 0) == [h]
    ensures OptimizeHeadings(s, "", kw) == RewriteHeadings(s, [h], [kw])
  {
  }

  lemma SuffixOne(h: Heading, kw: string)
    requires h.markers in {"#", "##", "###"} && 3 < |h.text| < 50
    requires !Contains(Lower(h.text), Lower(kw))
    ensures RewriteHeadings(Original(h), [h], [kw]) == Suffixed(h, kw)
  {
    assert !KeywordPresent(h.text, [kw]) by {
      assert [kw][1..] == [];
    }
    RewriteOne(Original(h), h, [kw]);
    ReplaceWhole(Original(h), Suffixed(h, kw));
  }

  /**
   * A qualifying heading whose line occurs nowhere else in the document gets ": " and the
   * capitalised first keyword inserted right after it, and nothing else changes.
   */
  lemma {:induction false} RewriteSoleHeading(c: string, h: Heading, kws: seq<string>, p: nat)
    requires |kws| > 0 && Qualifies(h, kws)
    requires OccursAt(c, Original(h), p)
    requires forall j: nat :: j != p ==> !OccursAt(c, Original(h), j)
    ensures var e := p + |Original(h)|;
      RewriteHeadings(c, [h], kws) == c[..e] + (": " + Capitalize(kws[0])) + c[e..]
  {
    var o, x := Original(h), ": " + Capitalize(kws[0]);
    calc {
      RewriteHeadings(c, [h], kws);
    == { RewriteOne(c, h, kws); }
      ReplaceAll(c, o, Suffixed(h, kws[0]));
    == { assert Suffixed(h, kws[0]) == o + x; }
      ReplaceAll(c, o, o + x);
    == { ReplaceAllSoleSuffix(c, o, x, p); }
      c[..p + |o|] + x + c[p + |o|..];
    }
  }

  /** A single qualifying heading is one global replacement. */
  lemma RewriteOne(c: string, h: Heading, kws: seq<string>)
    requires |kws| > 0 && Qualifies(h, kws)
    ensures RewriteHeadings(c, [h], kws) == ReplaceAll(c, Original(h), Suffixed(h, kws[0]))
  {
    assert [h][1..] == [];
  }

  // ---------------------------------------------------------------- optimize_content

  /** The text returned and the prompts sent, in order. */
  datatype Optimized = Optimized(text: string, requests: seq<Request>)

  /**
   * `seo_analysis.get("overall_score", 0) > 85`; None when Python raises (the analysis is
   * not an object, or the score is not a number). A boolean compares as 0 or 1.
   */
  function ScoreAbove85(analysis: Value): (r: Option<bool>)
    ensures analysis.Obj? && "overall_score" !in analysis.fields ==> r == Some(false)
    ensures r == Some(true) ==> Get(analysis, "overall_score").Some? && Get(analysis, "overall_score").value.Num?
  {
    match analysis
    case Obj(fields) =>
      var score := if "overall_score" in fields then fields["overall_score"] else Int(0);
      (match score
       case Num(n, d) => Some(n > 85 * d)
       case Bool(_) => Some(false)
       case _ => None)
    case _ => None
  }

  /**
   * `optimize_content(content, topic, keywords)`: above 85 only the local edits are made
   * and no rewrite is requested; otherwise the rewrite reply is returned; whatever raises
   * gives back the content unchanged.
   */
  function OptimizeContent(content: string, topic: string, keywords: string,
                           llm: Request -> Option<string>, parse: string -> Option<Value>): (r: Optimized)
    ensures |r.requests| >= 1 && r.requests[0] == Analysis(topic, keywords, content)
    ensures var above := ScoreAbove85(AnalyzeSeo(content, topic, keywords, llm, parse));
      && (above == Some(true) ==>
            r.requests == [Analysis(topic, keywords, content)]
            && r.text == OptimizeHeadings(AddInternalLink(content, topic), topic, keywords))
      && (above == Some(false) ==>
            r.requests == [Analysis(topic, keywords, content), Rewrite(topic, keywords, content)]
            && r.text == llm(Rewrite(topic, keywords, content)).GetOr(content))
      && (above.None? ==> r.text == content && |r.requests| == 1)
  {
    var first := Analysis(topic, keywords, content);
    match ScoreAbove85(AnalyzeSeo(content, topic, keywords, llm, parse))
    case None => Optimized(content, [first])
    case Some(true) => Optimized(OptimizeHeadings(AddInternalLink(content, topic), topic, keywords), [first])
    case Some(false) =>
      var second := Rewrite(topic, keywords, content);
      Optimized(llm(second).GetOr(content), [first, second])
  }
}
