/**
 * `create_markdown_blog` of `utils.py`: a title plus ordered sections rendered as
 * Markdown. A missing dictionary key and an empty value render the same (nothing), so
 * every field is a plain string or list and "" / [] stand for "missing".
 */
module Markdown {
  import opened Text

  /** One `{'title', 'content'}` subheading dictionary. */
  datatype DraftSubsection = DraftSubsection(title: string, content: string)

  /** One `{'heading', 'content', 'subheadings'}` section dictionary. */
  datatype DraftSection = DraftSection(heading: string, content: string, subheadings: seq<DraftSubsection>)

  /** `prefix + text` followed by a blank line, or nothing when `text` is empty. */
  function Block(prefix: string, text: string): string {
    if text == "" then "" else prefix + text + "\n\n"
  }

  function RenderSubsection(sub: DraftSubsection): string {
    Block("### ", sub.title) + Block("", sub.content)
  }

  function RenderSubsections(subs: seq<DraftSubsection>): string {
    if |subs| == 0 then "" else RenderSubsection(subs[0]) + RenderSubsections(subs[1..])
  }

  function RenderSection(s: DraftSection): string {
    Block("## ", s.heading) + Block("", s.content) + RenderSubsections(s.subheadings)
  }

  function RenderSections(sections: seq<DraftSection>): string {
    if |sections| == 0 then "" else RenderSection(sections[0]) + RenderSections(sections[1..])
  }

  /** `create_markdown_blog(title, sections)`. */
  function CreateMarkdownBlog(title: string, sections: seq<DraftSection>): (md: string)
    ensures StartsWith(md, "# " + title + "\n\n")
    ensures |sections| == 0 ==> md == "# " + title + "\n\n"
  {
    "# " + title + "\n\n" + RenderSections(sections)
  }

  /** Rendering is a left-to-right concatenation: the sections of `a + b` render as those of `a`, then of `b`. */
  lemma {:induction false} RenderSectionsAppend(a: seq<DraftSection>, b: seq<DraftSection>)
    ensures RenderSections(a + b) == RenderSections(a) + RenderSections(b)
  {
    if |a| == 0 {
      assert a + b == b;
    } else {
      assert (a + b)[1..] == a[1..] + b;
      RenderSectionsAppend(a[1..], b);
    }
  }

  /** Appending a section appends exactly its rendering to the post, so sections appear in input order. */
  lemma BlogAppendSection(title: string, sections: seq<DraftSection>, s: DraftSection)
    ensures CreateMarkdownBlog(title, sections + [s]) == CreateMarkdownBlog(title, sections) + RenderSection(s)
  {
    RenderSectionsAppend(sections, [s]);
    assert [s][1..] == [];
  }

  /** A section whose every field is empty or missing contributes nothing. */
  lemma EmptySectionInvisible(title: string, a: seq<DraftSection>, b: seq<DraftSection>)
    ensures CreateMarkdownBlog(title, a + [DraftSection("", "", [])] + b) == CreateMarkdownBlog(title, a + b)
  {
    var e := DraftSection("", "", []);
    RenderSectionsAppend(a + [e], b);
    RenderSectionsAppend(a, [e]);
    RenderSectionsAppend(a, b);
    assert [e][1..] == [];
  }
}
