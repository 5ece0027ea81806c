/**
 * The request handlers of `main.py` stripped of Flask: `generate_blog` chooses the topic,
 * reports progress and picks one of two sample posts; `save_blog` turns the stored topic
 * into a file name and the requested format into an extension and a content type.
 * The sample posts' fixed text is not modelled: a post is named by which template made it.
 */
module App {
  import opened Wrappers
  import opened Text

  // ---------------------------------------------------------------- topic and post

  const DefaultTopic: string := "HR Technology Trends"

  /** The submitted topic with surrounding whitespace removed (empty when absent), a blank topic replaced by the default. */
  function EffectiveTopic(form: string): (t: string)
    ensures Strip(form) == "" ==> t == DefaultTopic
    ensures Strip(form) != "" ==> t == Strip(form)
  {
    if Strip(form) == "" then DefaultTopic else Strip(form)
  }

  /** The topic names a technology subject: its lower-cased form mentions one of three words. */
  predicate IsTechTopic(topic: string) {
    Contains(Lower(topic), "technology") || Contains(Lower(topic), "tech") || Contains(Lower(topic), "digital")
  }

  /** Which sample post `generate_blog` stores. */
  datatype Post = TechPost | GeneralPost(topic: string)

  /** `generate_hr_tech_blog(keywords)` or `generate_general_hr_blog(topic, keywords)`; both ignore the keywords. */
  function ChoosePost(topic: string, keywords: string): (p: Post)
    ensures p.TechPost? <==> IsTechTopic(topic)
    ensures p.GeneralPost? ==> p.topic == topic
  {
    if IsTechTopic(topic) then TechPost else GeneralPost(topic)
  }

  /** "technology" contains "tech", so the first test never decides anything the second would not. */
  lemma TechTopicIff(topic: string)
    ensures IsTechTopic(topic) <==> Contains(Lower(topic), "tech") || Contains(Lower(topic), "digital")
  {
    var l := Lower(topic);
    if Contains(l, "technology") {
      ContainsIff(l, "technology");
      var j: nat :| OccursAt(l, "technology", j);
      assert l[j..j + 4] == l[j..j + 10][..4];
      assert OccursAt(l, "tech", j);
      ContainsAt(l, "tech", j);
    }
  }

  /** A blank topic falls back to the default, which is a technology topic, so it gets the technology post. */
  lemma BlankTopicGetsTechPost(form: string, keywords: string)
    requires Strip(form) == ""
    ensures ChoosePost(EffectiveTopic(form), keywords) == TechPost
  {
    DefaultTopicIsTech();
  }

  /** "HR Technology Trends" lower-cased holds "tech" at index 3. */
  lemma DefaultTopicIsTech()
    ensures IsTechTopic(DefaultTopic)
  {
    var l := Lower(DefaultTopic);
    assert l[3] == 't' && l[4] == 'e' && l[5] == 'c' && l[6] == 'h' by {
      assert DefaultTopic[3] == 'T' && DefaultTopic[4] == 'e' && DefaultTopic[5] == 'c' && DefaultTopic[6] == 'h';
    }
    assert l[3..7] == "tech";
    ContainsAt(l, "tech", 3);
  }

  /** The post never depends on the keywords. */
  lemma PostIgnoresKeywords(topic: string, k1: string, k2: string)
    ensures ChoosePost(topic, k1) == ChoosePost(topic, k2)
  {
  }

  // ---------------------------------------------------------------- progress

  datatype Status = Researching | Planning | Writing | Optimizing | Reviewing | Complete | Failed

  /** One `session['progress']` update (the message text is left out). */
  datatype Progress = Progress(status: Status, completion: nat)

  /** The updates of a run that does not raise, in order. */
  const Stages: seq<Progress> := [
    Progress(Researching, 0), Progress(Planning, 20), Progress(Writing, 40),
    Progress(Optimizing, 70), Progress(Reviewing, 90), Progress(Complete, 100)]

  lemma StagesIncrease()
    ensures forall i, j :: 0 <= i < j < |Stages| ==> Stages[i].completion < Stages[j].completion
  {
    forall i, j | 0 <= i < j < |Stages| ensures Stages[i].completion < Stages[j].completion {
      assert Stages[i].completion == [0, 20, 40, 70, 90, 100][i];
      assert Stages[j].completion == [0, 20, 40, 70, 90, 100][j];
    }
  }

  /** The stored result: the topic and the post. The time stamp is left out. */
  datatype BlogResult = BlogResult(topic: string, post: Post)

  /** The progress updates made and the stored result, if the handler got that far. */
  datatype Generated = Generated(progress: seq<Progress>, result: Option<BlogResult>)

  /**
   * `generate_blog`. An exception raised inside the handler is a parameter: `raiseAfter`
   * is `Some(k)` when it is raised after the first `k` progress updates (the only
   * statements left that can raise are the form and session accesses and the sleeps
   * between the updates, so `k` is at most 5); the handler then records the failed status.
   */
  function GenerateBlog(form: string, keywords: string, raiseAfter: Option<nat>): (g: Generated)
    requires raiseAfter.Some? ==> raiseAfter.value <= 5
    ensures raiseAfter.None? ==> g.progress == Stages
    ensures raiseAfter.Some? ==>
      (|g.progress| == raiseAfter.value + 1 && g.progress[..raiseAfter.value] == Stages[..raiseAfter.value])
    ensures g.result.Some? <==> raiseAfter.None?
  {
    match raiseAfter
    case None =>
      var topic := EffectiveTopic(form);
      Generated(Stages, Some(BlogResult(topic, ChoosePost(topic, keywords))))
    case Some(k) => Generated(Stages[..k] + [Progress(Failed, 0)], None)
  }

  /**
   * A run that does not raise reports strictly increasing completion from 0 to 100 and
   * stores the chosen post; one that raises ends on the failed status at 0 and stores nothing.
   */
  lemma GenerateBlogSpec(form: string, keywords: string, raiseAfter: Option<nat>)
    requires raiseAfter.Some? ==> raiseAfter.value <= 5
    ensures var g := GenerateBlog(form, keywords, raiseAfter);
      && |g.progress| > 0
      && (raiseAfter.None? ==>
            (g.progress[0].completion == 0 && g.progress[|g.progress| - 1] == Progress(Complete, 100)
             && (forall i, j :: 0 <= i < j < |g.progress| ==> g.progress[i].completion < g.progress[j].completion)
             && g.result == Some(BlogResult(EffectiveTopic(form), ChoosePost(EffectiveTopic(form), keywords)))))
      && (raiseAfter.Some? ==> g.progress[|g.progress| - 1] == Progress(Failed, 0) && g.result.None?)
      && (forall i :: 0 <= i < |g.progress| - 1 ==> g.progress[i].status != Failed && g.progress[i].status != Complete)
  {
    StagesInProgress();
    if raiseAfter.None? {
      GenerateBlogCompletes(form, keywords);
      StagesIncrease();
    } else {
      GenerateBlogFails(form, keywords, raiseAfter.value);
    }
  }

  /** The run that does not raise. */
  lemma GenerateBlogCompletes(form: string, keywords: string)
    ensures var g := GenerateBlog(form, keywords, None);
      && g.progress == Stages
      && g.result == Some(BlogResult(EffectiveTopic(form), ChoosePost(EffectiveTopic(form), keywords)))
  {
  }

  /** The run that raises after `k` updates. */
  lemma GenerateBlogFails(form: string, keywords: string, k: nat)
    requires k <= 5
    ensures var g := GenerateBlog(form, keywords, Some(k));
      && |g.progress| == k + 1
      && g.progress[k] == Progress(Failed, 0)
      && g.result.None?
      && (forall i :: 0 <= i < k ==> g.progress[i] == Stages[i])
  {
    var g := GenerateBlog(form, keywords, Some(k));
    assert g.progress == Stages[..k] + [Progress(Failed, 0)];
  }

  /** No stage before the last one reports completion or failure. */
  lemma StagesInProgress()
    ensures forall i :: 0 <= i < |Stages| - 1 ==> Stages[i].status != Failed && Stages[i].status != Complete
  {
  }

  // ---------------------------------------------------------------- save_blog

  /** The topic with every character that is not a letter or digit replaced by an underscore. */
  function Sanitize(topic: string): (s: string)
    ensures |s| == |topic|
    ensures forall i :: 0 <= i < |s| ==> s[i] == (if IsAlnum(topic[i]) then topic[i] else '_')
  {
    seq(|topic|, i requires 0 <= i < |topic| => if IsAlnum(topic[i]) then topic[i] else '_')
  }

  /** The string without its trailing underscores. */
  function RStripUnderscore(s: string): (r: string)
    ensures |r| <= |s| && r == s[..|r|]
    ensures |r| > 0 ==> r[|r| - 1] != '_'
    ensures forall i :: |r| <= i < |s| ==> s[i] == '_'
  {
    if |s| > 0 && s[|s| - 1] == '_' then RStripUnderscore(s[..|s| - 1]) else s
  }

  /** Letters and digits of the topic kept, every other character turned into '_', trailing '_' removed. */
  function SafeFilename(topic: string): (f: string)
    ensures |f| <= |topic|
    ensures forall i :: 0 <= i < |f| ==> IsAlnum(f[i]) || f[i] == '_'
    ensures |f| > 0 ==> f[|f| - 1] != '_'
  {
    RStripUnderscore(Sanitize(topic))
  }

  /** The file name keeps the topic's letters and digits in place and puts '_' for the rest; only non-alphanumerics are cut from the end. */
  lemma SafeFilenameChars(topic: string)
    ensures var f := SafeFilename(topic);
      && (forall i :: 0 <= i < |f| ==> (IsAlnum(topic[i]) ==> f[i] == topic[i]) && (!IsAlnum(topic[i]) ==> f[i] == '_'))
      && (forall i :: |f| <= i < |topic| ==> !IsAlnum(topic[i]))
  {
    var s := Sanitize(topic);
    var f := SafeFilename(topic);
    forall i | |f| <= i < |topic| ensures !IsAlnum(topic[i]) {
      assert s[i] == '_';
    }
  }

  /** A name that is already safe is its own safe name, so sanitising twice changes nothing. */
  lemma {:induction false} SafeFilenameIdempotent(topic: string)
    ensures SafeFilename(SafeFilename(topic)) == SafeFilename(topic)
  {
    var f := SafeFilename(topic);
    assert Sanitize(f) == f by {
      forall i | 0 <= i < |f| ensures Sanitize(f)[i] == f[i] {
        assert IsAlnum(f[i]) || f[i] == '_';
        assert !IsAlnum('_');
      }
    }
  }

  datatype Format = Markdown | Html | PlainText

  /** The submitted download format (markdown when absent) compared against the two known names. */
  function FormatOf(name: string): (f: Format)
    ensures f == Markdown <==> name == "markdown"
    ensures f == Html <==> name == "html"
  {
    if name == "markdown" then Markdown else if name == "html" then Html else PlainText
  }

  function Extension(f: Format): string {
    match f
    case Markdown => ".md"
    case Html => ".html"
    case PlainText => ".txt"
  }

  function ContentType(f: Format): string {
    match f
    case Markdown => "text/markdown"
    case Html => "text/html"
    case PlainText => "text/plain"
  }

  /** The JSON reply of `save_blog`. */
  datatype Saved = NothingToSave | Saved(filename: string, content: string, contentType: string)

  /** `save_blog`, given the stored topic and post text (None when nothing was generated). */
  function SaveBlog(stored: Option<(string, string)>, formatName: string): (r: Saved)
    ensures r.NothingToSave? <==> stored.None?
    ensures r.Saved? ==> r.content == stored.value.1
  {
    match stored
    case None => NothingToSave
    case Some((topic, content)) =>
      var f := FormatOf(formatName);
      Saved(SafeFilename(topic) + Extension(f), content, ContentType(f))
  }

  /**
   * The saved file is named after the safe form of the topic; "markdown" gives ".md" and
   * Markdown, "html" gives ".html" and HTML, and every other name plain text; the extension
   * and the content type always name the same format.
   */
  lemma SaveBlogSpec(topic: string, content: string, formatName: string)
    ensures var r := SaveBlog(Some((topic, content)), formatName);
      && r.Saved?
      && StartsWith(r.filename, SafeFilename(topic))
      && (formatName == "markdown" <==> EndsWith(r.filename, ".md") && r.contentType == "text/markdown")
      && (formatName == "html" <==> EndsWith(r.filename, ".html") && r.contentType == "text/html")
      && (formatName != "markdown" && formatName != "html" <==> EndsWith(r.filename, ".txt") && r.contentType == "text/plain")
  {
    var r := SaveBlog(Some((topic, content)), formatName);
    var f := FormatOf(formatName);
    var stem := SafeFilename(topic);
    assert r.filename == stem + Extension(f);
    assert r.filename[..|stem|] == stem;
    assert r.filename[|r.filename| - |Extension(f)|..] == Extension(f);
  }
}
