/**
 * `generate_content` of `agents/content_agent.py`: every outline section becomes one
 * drafted section, in outline order. An "introduction" or "conclusion" section is one
 * model call; any other section is one call per subheading and then one for its body,
 * whose word budget is what the subheadings leave of the section's target, at least 50.
 * The drafted sections are assembled with `create_markdown_blog`.
 *
 * The model is an oracle `llm: Request -> Option<string>` (None when the call raises; the
 * exception leaves `generate_content`). The `time.sleep` pauses are recorded as events
 * next to the calls, so the order of requests and pauses is part of the result.
 */
module Content {
  import opened Wrappers
  import opened Text
  import opened Markdown
  import opened Planning

  /** The three prompts of the content agent. */
  datatype Request =
    | Introduction(title: string, topic: string, targetWordCount: int, research: string)
    | Conclusion(title: string, topic: string, targetWordCount: int, keyPoints: string)
    | SectionContent(topic: string, heading: string, subheadings: string, keyPoints: string,
                     targetWordCount: int, research: string)

  /** What `generate_content` does, in order: a model call, or a pause of some seconds. */
  datatype Event = Call(request: Request) | Sleep(seconds: nat)

  /** The fixed inputs of every section: topic, blog title, research text, all outline sections. */
  datatype Context = Context(topic: string, title: string, research: string, all: seq<Section>)

  // ---------------------------------------------------------------- classification

  /** The heading of a section outline, empty when it names none. */
  function HeadingOf(s: Section): string {
    s.heading.GetOr("")
  }

  datatype Kind = Intro | Concl | Main

  /** A section is the introduction or the conclusion when its lower-cased heading is exactly that word. */
  function KindOf(s: Section): (k: Kind)
    ensures k == Intro <==> Lower(HeadingOf(s)) == "introduction"
    ensures k == Concl <==> Lower(HeadingOf(s)) == "conclusion"
  {
    if Lower(HeadingOf(s)) == "introduction" then Intro
    else if Lower(HeadingOf(s)) == "conclusion" then Concl
    else Main
  }

  /** The title of the outline, or the topic followed by ": A Comprehensive Guide" when it names none. */
  function TitleOf(outline: Outline, topic: string): (t: string)
    ensures outline.title.None? ==> t == topic + ": A Comprehensive Guide"
    ensures outline.title.Some? ==> t == outline.title.value
  {
    outline.title.GetOr(topic + ": A Comprehensive Guide")
  }

  /** The key points as a bulleted list: each on its own line after "- ". */
  function Bullets(points: seq<string>): string {
    Join(seq(|points|, i requires 0 <= i < |points| => "- " + points[i]), "\n")
  }

  // ---------------------------------------------------------------- conclusion key points

  /**
   * The key points of every section that is neither the introduction nor the conclusion,
   * in outline order. None when some section has no heading: the source lower-cases
   * `s.get("heading")` there without a default, which raises.
   */
  function ConclusionPoints(ss: seq<Section>): (r: Option<seq<string>>)
    ensures r.None? <==> exists i :: 0 <= i < |ss| && ss[i].heading.None?
  {
    if |ss| == 0 then Some([])
    else
      var rest := ConclusionPoints(ss[1..]);
      assert forall i :: 1 <= i < |ss| ==> ss[1..][i - 1] == ss[i];
      if ss[0].heading.None? || rest.None? then None
      else
        var h := Lower(ss[0].heading.value);
        Some((if h == "introduction" || h == "conclusion" then [] else ss[0].keyPoints) + rest.value)
  }

  /** The key points the conclusion reads, when every heading is present. */
  function MainPoints(ss: seq<Section>): seq<string> {
    if |ss| == 0 then []
    else (if KindOf(ss[0]) == Main then ss[0].keyPoints else []) + MainPoints(ss[1..])
  }

  /** With every heading present, the conclusion gets exactly the main sections' key points, in order. */
  lemma {:induction false} ConclusionPointsAreMainPoints(ss: seq<Section>)
    requires forall i :: 0 <= i < |ss| ==> ss[i].heading.Some?
    ensures ConclusionPoints(ss) == Some(MainPoints(ss))
  {
    if |ss| > 0 {
      assert forall i :: 1 <= i < |ss| ==> ss[1..][i - 1] == ss[i];
      ConclusionPointsAreMainPoints(ss[1..]);
    }
  }

  lemma {:induction false} MainPointsAppend(a: seq<Section>, b: seq<Section>)
    ensures MainPoints(a + b) == MainPoints(a) + MainPoints(b)
  {
    if |a| == 0 {
      assert a + b == b;
    } else {
      assert (a + b)[1..] == a[1..] + b;
      MainPointsAppend(a[1..], b);
    }
  }

  // ---------------------------------------------------------------- body budget

  /** The word targets of the subheadings added up, 200 for a subheading that names none. */
  function SubheadingBudget(subs: seq<Subheading>): int {
    if |subs| == 0 then 0 else subs[0].targetWordCount.GetOr(200) + SubheadingBudget(subs[1..])
  }

  /** The body target of a main section: what its subheadings leave of its target (300 by default), at least 50. */
  function BodyBudget(s: Section): (b: int)
    ensures b >= 50
    ensures b >= s.targetWordCount.GetOr(300) - SubheadingBudget(s.subheadings)
    ensures b == 50 || b == s.targetWordCount.GetOr(300) - SubheadingBudget(s.subheadings)
  {
    Max(50, s.targetWordCount.GetOr(300) - SubheadingBudget(s.subheadings))
  }

  /**
   * In the fallback outline the subheadings use up their sections' targets, so those
   * sections' bodies get the floor of 50 words; "Future Directions" keeps its 200.
   */
  lemma FallbackBodyBudgets(topic: string, keywords: string)
    ensures var ss := FallbackOutline(topic, keywords).sections;
      BodyBudget(ss[1]) == 50 && BodyBudget(ss[2]) == 50 && BodyBudget(ss[3]) == 50
      && BodyBudget(ss[4]) == 200
  {
    FallbackSubheadingBudgets(topic, keywords);
    var ss := FallbackOutline(topic, keywords).sections;
    forall i | 1 <= i <= 3 ensures SubheadingBudget(ss[i].subheadings) == SubheadingTotal(ss[i].subheadings) {
      DeclaredBudget(ss[i].subheadings);
    }
  }

  /** With every target declared, the default of 200 never applies. */
  lemma {:induction false} DeclaredBudget(subs: seq<Subheading>)
    requires forall i :: 0 <= i < |subs| ==> subs[i].targetWordCount.Some?
    ensures SubheadingBudget(subs) == SubheadingTotal(subs)
  {
    if |subs| > 0 {
      assert forall i :: 1 <= i < |subs| ==> subs[1..][i - 1] == subs[i];
      DeclaredBudget(subs[1..]);
    }
  }

  // ---------------------------------------------------------------- the planned requests

  /** The request for one subheading: its title as heading, no subheadings, its key points. */
  function SubRequest(c: Context, sub: Subheading): Request {
    SectionContent(c.topic, sub.title, "", Bullets(sub.keyPoints), sub.targetWordCount.GetOr(200), c.research)
  }

  function SubTitles(subs: seq<Subheading>): (ts: seq<string>)
    ensures |ts| == |subs| && forall i :: 0 <= i < |subs| ==> ts[i] == subs[i].title
  {
    seq(|subs|, i requires 0 <= i < |subs| => subs[i].title)
  }

  /** The request for a main section's body, after its subheadings. */
  function BodyRequest(c: Context, s: Section): Request {
    SectionContent(c.topic, HeadingOf(s), Join(SubTitles(s.subheadings), "\n"), Bullets(s.keyPoints), BodyBudget(s), c.research)
  }

  /** Each subheading: its call, then a one-second pause. */
  function SubPlan(c: Context, subs: seq<Subheading>): seq<Event> {
    if |subs| == 0 then [] else [Call(SubRequest(c, subs[0])), Sleep(1)] + SubPlan(c, subs[1..])
  }

  /** What a section asks for when every call answers; `ok` is false when it raises before any call. */
  datatype Plan = Plan(events: seq<Event>, ok: bool)

  /**
   * The calls and pauses one section makes. The introduction and the conclusion are never
   * followed by a pause; a main section always ends with its body request and two seconds.
   */
  function PlanSection(c: Context, s: Section): (p: Plan)
    ensures KindOf(s) != Main ==> forall i :: 0 <= i < |p.events| ==> p.events[i].Call?
    ensures KindOf(s) == Main ==>
      |p.events| >= 2 && p.events[|p.events| - 1] == Sleep(2) && p.events[|p.events| - 2] == Call(BodyRequest(c, s))
  {
    match KindOf(s)
    case Intro => Plan([Call(Introduction(c.title, c.topic, s.targetWordCount.GetOr(300), c.research))], true)
    case Concl =>
      (match ConclusionPoints(c.all)
       case None => Plan([], false)
       case Some(ps) => Plan([Call(Conclusion(c.title, c.topic, s.targetWordCount.GetOr(300), Bullets(ps)))], true))
    case Main => Plan(SubPlan(c, s.subheadings) + [Call(BodyRequest(c, s)), Sleep(2)], true)
  }

  /** The sections' plans one after the other, up to the first section that raises. */
  function PlanSections(c: Context, ss: seq<Section>): Plan {
    if |ss| == 0 then Plan([], true)
    else
      var p := PlanSection(c, ss[0]);
      if !p.ok then p
      else
        var rest := PlanSections(c, ss[1..]);
        Plan(p.events + rest.events, rest.ok)
  }

  /** Every call among `events` is answered. */
  predicate Answered(llm: Request -> Option<string>, events: seq<Event>) {
    forall i :: 0 <= i < |events| && events[i].Call? ==> llm(events[i].request).Some?
  }

  lemma AnsweredAppend(llm: Request -> Option<string>, a: seq<Event>, b: seq<Event>)
    ensures Answered(llm, a + b) <==> Answered(llm, a) && Answered(llm, b)
  {
    if Answered(llm, a) && Answered(llm, b) {
      forall i | 0 <= i < |a + b| && (a + b)[i].Call? ensures llm((a + b)[i].request).Some? {
        if i >= |a| {
          assert (a + b)[i] == b[i - |a|];
        }
      }
    }
    if Answered(llm, a + b) {
      forall i | 0 <= i < |a| && a[i].Call? ensures llm(a[i].request).Some? {
        assert (a + b)[i] == a[i];
      }
      forall i | 0 <= i < |b| && b[i].Call? ensures llm(b[i].request).Some? {
        assert (a + b)[|a| + i] == b[i];
      }
    }
  }

  // ---------------------------------------------------------------- running the sections

  /** The calls and pauses made, and the drafted part when none raised. */
  datatype Run<T> = Run(value: Option<T>, events: seq<Event>)

  /** The subheading loop: draft each subheading in order, pausing a second after each. */
  function RunSubs(c: Context, subs: seq<Subheading>, llm: Request -> Option<string>): Run<seq<DraftSubsection>> {
    if |subs| == 0 then Run(Some([]), [])
    else
      var req := SubRequest(c, subs[0]);
      match llm(req)
      case None => Run(None, [Call(req)])
      case Some(text) =>
        var rest := RunSubs(c, subs[1..], llm);
        Run(if rest.value.Some? then Some([DraftSubsection(subs[0].title, text)] + rest.value.value) else None,
            [Call(req), Sleep(1)] + rest.events)
  }

  /** One section of the loop of `generate_content`. */
  function RunSection(c: Context, s: Section, llm: Request -> Option<string>): Run<DraftSection> {
    match KindOf(s)
    case Intro =>
      var req := Introduction(c.title, c.topic, s.targetWordCount.GetOr(300), c.research);
      Run(if llm(req).Some? then Some(DraftSection(HeadingOf(s), llm(req).value, [])) else None, [Call(req)])
    case Concl =>
      (match ConclusionPoints(c.all)
       case None => Run(None, [])
       case Some(ps) =>
         var req := Conclusion(c.title, c.topic, s.targetWordCount.GetOr(300), Bullets(ps));
         Run(if llm(req).Some? then Some(DraftSection(HeadingOf(s), llm(req).value, [])) else None, [Call(req)]))
    case Main =>
      var subs := RunSubs(c, s.subheadings, llm);
      if subs.value.None? then Run(None, subs.events)
      else
        var req := BodyRequest(c, s);
        match llm(req)
        case None => Run(None, subs.events + [Call(req)])
        case Some(body) => Run(Some(DraftSection(HeadingOf(s), body, subs.value.value)), subs.events + [Call(req), Sleep(2)])
  }

  /** The section loop, stopping at the first section that raises. */
  function RunSections(c: Context, ss: seq<Section>, llm: Request -> Option<string>): Run<seq<DraftSection>> {
    if |ss| == 0 then Run(Some([]), [])
    else
      var r := RunSection(c, ss[0], llm);
      if r.value.None? then Run(None, r.events)
      else
        var rest := RunSections(c, ss[1..], llm);
        Run(if rest.value.Some? then Some([r.value.value] + rest.value.value) else None, r.events + rest.events)
  }

  /**
   * The titles of drafted subsections. A drafted subsection is a different type from a
   * planned one, so this is the drafted counterpart of SubTitles; RunSubsSpec equates the two.
   */
  function DraftTitles(subs: seq<DraftSubsection>): (ts: seq<string>)
    ensures |ts| == |subs| && forall i :: 0 <= i < |subs| ==> ts[i] == subs[i].title
  {
    seq(|subs|, i requires 0 <= i < |subs| => subs[i].title)
  }

  /**
   * The subheading loop sends its planned calls in order and stops at the first that
   * raises; it succeeds exactly when all are answered, keeping every title in order.
   */
  lemma {:induction false} RunSubsSpec(c: Context, subs: seq<Subheading>, llm: Request -> Option<string>)
    ensures var r := RunSubs(c, subs, llm); var plan := SubPlan(c, subs);
      && r.events <= plan
      && (r.value.Some? <==> Answered(llm, plan))
      && (r.value.Some? ==> r.events == plan && DraftTitles(r.value.value) == SubTitles(subs))
      && (r.value.None? ==>
            (|r.events| > 0 && r.events[|r.events| - 1].Call? && llm(r.events[|r.events| - 1].request).None?))
  {
    if |subs| > 0 {
      var req := SubRequest(c, subs[0]);
      var plan := SubPlan(c, subs);
      var restPlan := SubPlan(c, subs[1..]);
      assert plan == [Call(req), Sleep(1)] + restPlan;
      AnsweredAppend(llm, [Call(req), Sleep(1)], restPlan);
      if llm(req).Some? {
        RunSubsSpec(c, subs[1..], llm);
        var rest := RunSubs(c, subs[1..], llm);
        if rest.value.Some? {
          var drafted := [DraftSubsection(subs[0].title, llm(req).value)] + rest.value.value;
          assert DraftTitles(drafted) == [subs[0].title] + DraftTitles(rest.value.value);
          assert SubTitles(subs) == [subs[0].title] + SubTitles(subs[1..]);
        }
      } else {
        assert !Answered(llm, [Call(req), Sleep(1)]) by {
          assert [Call(req), Sleep(1)][0] == Call(req);
        }
      }
    }
  }

  /**
   * The section's drafted form: its heading; no subheadings for the introduction and the
   * conclusion; otherwise its subheading titles in order.
   */
  predicate Drafts(s: Section, d: DraftSection) {
    && d.heading == HeadingOf(s)
    && (KindOf(s) != Main ==> d.subheadings == [])
    && (KindOf(s) == Main ==> DraftTitles(d.subheadings) == SubTitles(s.subheadings))
  }

  /** One section sends its planned calls in order; it succeeds exactly when its plan runs and is answered. */
  lemma RunSectionSpec(c: Context, s: Section, llm: Request -> Option<string>)
    ensures var r := RunSection(c, s, llm); var p := PlanSection(c, s);
      && r.events <= p.events
      && (r.value.Some? <==> p.ok && Answered(llm, p.events))
      && (r.value.Some? ==> r.events == p.events && Drafts(s, r.value.value))
  {
    if KindOf(s) == Main {
      RunSubsSpec(c, s.subheadings, llm);
      var subs := RunSubs(c, s.subheadings, llm);
      var req := BodyRequest(c, s);
      var sp := SubPlan(c, s.subheadings);
      AnsweredAppend(llm, sp, [Call(req), Sleep(2)]);
      assert [Call(req), Sleep(2)][0] == Call(req);
      if subs.value.Some? {
        assert subs.events + [Call(req)] <= sp + [Call(req), Sleep(2)];
      } else {
        assert subs.events <= sp + [Call(req), Sleep(2)];
      }
    } else if KindOf(s) == Intro {
      assert [Call(Introduction(c.title, c.topic, s.targetWordCount.GetOr(300), c.research))][0].Call?;
    } else if ConclusionPoints(c.all).Some? {
      var req := Conclusion(c.title, c.topic, s.targetWordCount.GetOr(300), Bullets(ConclusionPoints(c.all).value));
      assert [Call(req)][0] == Call(req);
    }
  }

  /**
   * The section loop sends the planned calls in order and stops at the first that raises;
   * it succeeds exactly when no section raises and every planned call is answered, and
   * then it drafts one section per outline section, in order.
   */
  lemma {:induction false} RunSectionsSpec(c: Context, ss: seq<Section>, llm: Request -> Option<string>)
    ensures var r := RunSections(c, ss, llm); var p := PlanSections(c, ss);
      && r.events <= p.events
      && (r.value.Some? <==> p.ok && Answered(llm, p.events))
      && (r.value.Some? ==> r.events == p.events && |r.value.value| == |ss|)
      && (r.value.Some? ==> forall i :: 0 <= i < |ss| ==> Drafts(ss[i], r.value.value[i]))
  {
    if |ss| > 0 {
      RunSectionSpec(c, ss[0], llm);
      var r0 := RunSection(c, ss[0], llm);
      var p0 := PlanSection(c, ss[0]);
      if r0.value.Some? {
        RunSectionsSpec(c, ss[1..], llm);
        var rest := RunSections(c, ss[1..], llm);
        var prest := PlanSections(c, ss[1..]);
        AnsweredAppend(llm, p0.events, prest.events);
        assert r0.events == p0.events;
        if rest.value.Some? {
          var ds := [r0.value.value] + rest.value.value;
          forall i | 0 <= i < |ss| ensures Drafts(ss[i], ds[i]) {
            if i > 0 {
              assert ss[i] == ss[1..][i - 1];
            }
          }
        }
      } else if p0.ok {
        AnsweredAppend(llm, p0.events, PlanSections(c, ss[1..]).events);
      }
    }
  }

  // ---------------------------------------------------------------- generate_content

  /** The blog text (None when a call raised) and the calls and pauses made. */
  datatype Drafted = Drafted(text: Option<string>, events: seq<Event>)

  function ContextOf(topic: string, outline: Outline, research: string): Context {
    Context(topic, TitleOf(outline, topic), research, outline.sections)
  }

  /** `generate_content(topic, outline, research_data)`, given the research text. */
  function GenerateContent(topic: string, outline: Outline, research: string,
                           llm: Request -> Option<string>): (d: Drafted)
    ensures d.text.Some? ==> StartsWith(d.text.value, "# " + TitleOf(outline, topic) + "\n\n")
  {
    var c := ContextOf(topic, outline, research);
    var r := RunSections(c, outline.sections, llm);
    Drafted(if r.value.Some? then Some(CreateMarkdownBlog(c.title, r.value.value)) else None, r.events)
  }

  /**
   * The post is drafted exactly when no section raises and every planned call is
   * answered; the calls and pauses made are a prefix of the plan (all of it on success);
   * and the post is the Markdown assembly of one drafted section per outline section.
   */
  lemma GenerateContentSpec(topic: string, outline: Outline, research: string, llm: Request -> Option<string>)
    ensures var c := ContextOf(topic, outline, research);
      var d := GenerateContent(topic, outline, research, llm);
      var p := PlanSections(c, outline.sections);
      var r := RunSections(c, outline.sections, llm);
      && d.events <= p.events
      && (d.text.Some? <==> p.ok && Answered(llm, p.events))
      && (d.text.Some? ==> d.events == p.events)
      && (d.text.Some? ==>
            (r.value.Some? && d.text.value == CreateMarkdownBlog(c.title, r.value.value)
             && |r.value.value| == |outline.sections|
             && forall i :: 0 <= i < |outline.sections| ==> Drafts(outline.sections[i], r.value.value[i])))
  {
    RunSectionsSpec(ContextOf(topic, outline, research), outline.sections, llm);
  }

  /** A subheading plan alternates calls and one-second pauses, one pair per subheading. */
  lemma {:induction false} SubPlanAlternates(c: Context, subs: seq<Subheading>)
    ensures var p := SubPlan(c, subs);
      && |p| == 2 * |subs|
      && forall i :: 0 <= i < |subs| ==> p[2 * i] == Call(SubRequest(c, subs[i])) && p[2 * i + 1] == Sleep(1)
  {
    if |subs| > 0 {
      SubPlanAlternates(c, subs[1..]);
      var p := SubPlan(c, subs);
      var rest := SubPlan(c, subs[1..]);
      forall i | 1 <= i < |subs| ensures p[2 * i] == Call(SubRequest(c, subs[i])) && p[2 * i + 1] == Sleep(1) {
        assert p[2 * i] == rest[2 * (i - 1)];
        assert p[2 * i + 1] == rest[2 * (i - 1) + 1];
        assert subs[i] == subs[1..][i - 1];
      }
    }
  }
}
