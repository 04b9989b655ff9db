/** The AI-assisted post generator's assembly of a blog post: the outline's heading lines, each
    expanded in turn after a fixed front matter. The two model calls are given as functions. */
module GenerateContent {
  import opened Text
  import opened Seqs

  // ----- Python string helpers -----

  /** `s.split(sep)` for a one-character separator: the pieces between separators, always at
      least one. */
  function Split(s: string, sep: char): (parts: seq<string>)
    ensures |parts| >= 1
    ensures forall i :: 0 <= i < |parts| ==> sep !in parts[i]
    decreases |s|
  {
    if s == [] then [""]
    else if s[0] == sep then [""] + Split(s[1..], sep)
    else
      var rest := Split(s[1..], sep);
      [[s[0]] + rest[0]] + rest[1..]
  }

  /** Joining the pieces with the separator gives back the text, and there is one piece more than
      there are separators. */
  lemma {:induction false} SplitRoundTrip(s: string, sep: char)
    ensures JoinWith(Split(s, sep), [sep]) == s
    ensures |Split(s, sep)| == Count(s, sep) + 1
    decreases |s|
  {
    if s != [] {
      SplitRoundTrip(s[1..], sep);
      var rest := Split(s[1..], sep);
      if s[0] == sep {
        JoinAfterEmpty(rest, sep);
      } else {
        JoinExtendsFirst(s[0], rest, sep);
      }
      assert s == [s[0]] + s[1..];
    }
  }

  lemma JoinAfterEmpty(rest: seq<string>, sep: char)
    requires |rest| >= 1
    ensures JoinWith([""] + rest, [sep]) == [sep] + JoinWith(rest, [sep])
  {
    var parts := [""] + rest;
    assert parts[1..] == rest;
    var tail := JoinWith(rest, [sep]);
    assert JoinWith(parts, [sep]) == parts[0] + [sep] + tail;
    assert parts[0] + [sep] == [sep];
  }

  lemma JoinExtendsFirst(c: char, rest: seq<string>, sep: char)
    requires |rest| >= 1
    ensures JoinWith([[c] + rest[0]] + rest[1..], [sep]) == [c] + JoinWith(rest, [sep])
  {
    var parts := [[c] + rest[0]] + rest[1..];
    if |rest| > 1 {
      assert parts[1..] == rest[1..];
      Regroup([c], rest[0], [sep], JoinWith(rest[1..], [sep]));
    }
  }

  /** `s.lstrip()` */
  function StripStart(s: string): (r: string)
    ensures EndsWith(s, r)
    ensures r == [] || !IsPySpace(r[0])
    ensures forall i :: 0 <= i < |s| - |r| ==> IsPySpace(s[i])
    decreases |s|
  {
    if s != [] && IsPySpace(s[0]) then
      assert forall i :: 0 <= i < |s| - 1 ==> s[1..][i] == s[i + 1];
      StripStart(s[1..])
    else s
  }

  /** `s.rstrip()` */
  function StripEnd(s: string): (r: string)
    ensures StartsWith(s, r)
    ensures r == [] || !IsPySpace(r[|r| - 1])
    ensures forall i :: |r| <= i < |s| ==> IsPySpace(s[i])
    decreases |s|
  {
    if s != [] && IsPySpace(s[|s| - 1]) then
      assert forall i :: 0 <= i < |s| - 1 ==> s[..|s| - 1][i] == s[i];
      StripEnd(s[..|s| - 1])
    else s
  }

  /** `s.strip()`: the text without leading and trailing whitespace. */
  function Strip(s: string): string
  {
    StripEnd(StripStart(s))
  }

  /** A stripped text has no whitespace at either end, so stripping it again changes nothing. */
  lemma StripIdempotent(s: string)
    ensures var r := Strip(s); r == [] || (!IsPySpace(r[0]) && !IsPySpace(r[|r| - 1]))
    ensures Strip(Strip(s)) == Strip(s)
  {
    var r := Strip(s);
    var t := StripStart(s);
    assert StartsWith(t, r);
    if r != [] {
      assert r[0] == t[0];
    }
  }

  // ----- sections -----

  /** A line of the outline that is a heading once stripped. */
  predicate IsHeadingLine(line: string)
  {
    StartsWith(Strip(line), "#")
  }

  function StripAll(lines: seq<string>): (r: seq<string>)
    ensures |r| == |lines|
  {
    seq(|lines|, i requires 0 <= i < |lines| => Strip(lines[i]))
  }

  /** `sections`: the outline's heading lines, stripped, in outline order. */
  function Sections(outline: string): seq<string>
  {
    StripAll(Filter(IsHeadingLine, Split(outline, '\n')))
  }

  /** Every section starts with `#` and has no surrounding whitespace. */
  lemma SectionsAreStrippedHeadings(outline: string)
    ensures forall i :: 0 <= i < |Sections(outline)| ==>
      StartsWith(Sections(outline)[i], "#") && Strip(Sections(outline)[i]) == Sections(outline)[i]
  {
    var heads := Filter(IsHeadingLine, Split(outline, '\n'));
    forall i | 0 <= i < |heads|
      ensures StartsWith(Strip(heads[i]), "#") && Strip(Strip(heads[i])) == Strip(heads[i])
    {
      assert IsHeadingLine(heads[i]);
      StripIdempotent(heads[i]);
    }
  }

  /** The sections are exactly the stripped heading lines of the outline. */
  lemma SectionsAreHeadingLines(outline: string)
    ensures forall x :: x in Sections(outline) <==>
      exists line :: line in Split(outline, '\n') && IsHeadingLine(line) && x == Strip(line)
  {
    var lines := Split(outline, '\n');
    var heads := Filter(IsHeadingLine, lines);
    var secs := Sections(outline);
    forall x | x in secs ensures exists line :: line in lines && IsHeadingLine(line) && x == Strip(line) {
      var i :| 0 <= i < |secs| && secs[i] == x;
      assert heads[i] in lines && IsHeadingLine(heads[i]);
    }
    forall line | line in lines && IsHeadingLine(line) ensures Strip(line) in secs {
      var k :| 0 <= k < |lines| && lines[k] == line;
      assert line in heads;
      var j :| 0 <= j < |heads| && heads[j] == line;
      assert secs[j] == Strip(line);
    }
  }

  // ----- the post -----

  /** The `title:` line, after the opening delimiter. */
  function TitleLine(title: string): string
  {
    "---\ntitle: \"" + title + "\"\n"
  }

  /** The `date:` and `tags:` lines; `date` is the run's `YYYY-MM-DD` date. */
  function DateAndTags(date: string): string
  {
    "date: " + date + "\n" + "tags: [\"scala\", \"zio\", \"functional-programming\"]\n"
  }

  const ExcerptOpen: string := "excerpt: \"An exploration of "
  const ExcerptClose: string := " using Scala and ZIO\"\n"

  /** The `excerpt:` line, which names the topic. */
  function Excerpt(topic: string): string
  {
    ExcerptOpen + topic + ExcerptClose
  }

  /** The `cover_image:` and `series:` lines, the closing delimiter and a blank line. */
  const FrontMatterTail: string := "cover_image: \"/images/default-cover.jpg\"\nseries: \"99 Bottles of Scala\"\n---\n\n"

  function FrontMatter(title: string, date: string, topic: string): string
  {
    TitleLine(title) + DateAndTags(date) + Excerpt(topic) + FrontMatterTail
  }

  /** The front matter opens with the title line and names the topic in the excerpt. */
  lemma FrontMatterCarriesTitleAndTopic(title: string, date: string, topic: string)
    ensures StartsWith(FrontMatter(title, date, topic), TitleLine(title))
    ensures OccursAt(FrontMatter(title, date, topic), Excerpt(topic), |TitleLine(title) + DateAndTags(date)|)
    ensures OccursAt(Excerpt(topic), topic, |ExcerptOpen|)
    ensures EndsWith(FrontMatter(title, date, topic), FrontMatterTail)
  {
    FourParts(TitleLine(title), DateAndTags(date), Excerpt(topic), FrontMatterTail);
    AppendParts(ExcerptOpen, topic, ExcerptClose);
  }

  lemma FourParts(a: string, b: string, c: string, d: string)
    ensures StartsWith(a + b + c + d, a)
    ensures OccursAt(a + b + c + d, c, |a + b|)
    ensures EndsWith(a + b + c + d, d)
  {
    AppendParts(a + b, c, d);
    AppendParts(a, b, c + d);
    assert a + b + (c + d) == a + b + c + d;
    AppendParts(a + b + c, d, "");
  }

  /** One section of the post: its heading, a blank line, its expansion, a blank line. */
  function SectionBlock(section: string, text: string): string
  {
    section + "\n\n" + text + "\n\n"
  }

  /** The blocks of the sections, each with the expansion of that section. */
  function Blocks(outline: string, sections: seq<string>, expand: (string, string) -> string): (blocks: seq<string>)
    ensures |blocks| == |sections|
  {
    seq(|sections|, i requires 0 <= i < |sections| => SectionBlock(sections[i], expand(outline, sections[i])))
  }

  /** The post for an outline. */
  function BlogPost(title: string, topic: string, date: string, outline: string, expand: (string, string) -> string): string
  {
    FrontMatter(title, date, topic) + Concat(Blocks(outline, Sections(outline), expand))
  }

  /** `create_blog_post(title, topic)`, with the outline and section models given as functions and
      `date` the run's date; `expanded` are the sections sent for expansion, in order. */
  method CreateBlogPost(title: string, topic: string, date: string,
                        generateOutline: string -> string, expandSection: (string, string) -> string)
    returns (content: string, ghost expanded: seq<string>)
    ensures content == BlogPost(title, topic, date, generateOutline(topic), expandSection)
    ensures expanded == Sections(generateOutline(topic))
  {
    var outline := generateOutline(topic);
    var sections := Sections(outline);
    content := FrontMatter(title, date, topic);
    content, expanded := ExpandSections(content, outline, sections, expandSection);
  }

  /** The `for section in sections` loop: each section's heading and expansion appended to
      `content` in turn. */
  method ExpandSections(front: string, outline: string, sections: seq<string>, expandSection: (string, string) -> string)
    returns (content: string, ghost expanded: seq<string>)
    ensures content == front + Concat(Blocks(outline, sections, expandSection))
    ensures expanded == sections
  {
    content := front;
    expanded := [];
    for i := 0 to |sections|
      invariant content == front + Concat(Blocks(outline, sections, expandSection)[..i])
      invariant expanded == sections[..i]
    {
      var section := sections[i];
      var sectionContent := expandSection(outline, section);
      assert sections[..i + 1] == sections[..i] + [section];
      expanded := expanded + [section];
      ghost var before := Concat(Blocks(outline, sections, expandSection)[..i]);
      BlocksSnoc(outline, sections, i, expandSection);
      content := content + section + "\n\n" + sectionContent + "\n\n";
      assert content == front + (before + section + "\n\n" + sectionContent + "\n\n");
    }
    assert sections[..|sections|] == sections;
    assert Blocks(outline, sections, expandSection)[..|sections|] == Blocks(outline, sections, expandSection);
  }

  lemma BlocksSnoc(outline: string, sections: seq<string>, i: nat, expand: (string, string) -> string)
    requires i < |sections|
    ensures Concat(Blocks(outline, sections, expand)[..i + 1])
      == Concat(Blocks(outline, sections, expand)[..i]) + sections[i] + "\n\n" + expand(outline, sections[i]) + "\n\n"
  {
    var blocks := Blocks(outline, sections, expand);
    assert blocks[..i + 1] == blocks[..i] + [blocks[i]];
    ConcatSnoc(blocks[..i], blocks[i]);
  }

  /** The post starts with the front matter, and the block of section `i` follows the blocks of
      the sections before it. */
  lemma SectionsInOrder(title: string, topic: string, date: string, outline: string, expand: (string, string) -> string, i: nat)
    requires i < |Sections(outline)|
    ensures var secs := Sections(outline);
      OccursAt(BlogPost(title, topic, date, outline, expand), SectionBlock(secs[i], expand(outline, secs[i])),
               |FrontMatter(title, date, topic)| + |Concat(Blocks(outline, secs, expand)[..i])|)
  {
    BlockAt(FrontMatter(title, date, topic), Blocks(outline, Sections(outline), expand), i);
  }

  lemma BlockAt(front: string, blocks: seq<string>, i: nat)
    requires i < |blocks|
    ensures OccursAt(front + Concat(blocks), blocks[i], |front| + |Concat(blocks[..i])|)
  {
    ConcatAround(blocks, i);
    AppendParts(front + Concat(blocks[..i]), blocks[i], Concat(blocks[i + 1..]));
  }

  /** Without heading lines the post is the front matter alone. */
  lemma NoHeadingsFrontMatterOnly(title: string, topic: string, date: string, outline: string, expand: (string, string) -> string)
    requires forall line :: line in Split(outline, '\n') ==> !IsHeadingLine(line)
    ensures BlogPost(title, topic, date, outline, expand) == FrontMatter(title, date, topic)
  {
    var lines := Split(outline, '\n');
    assert forall i :: 0 <= i < |lines| ==> lines[i] in lines;
    FilterNone(IsHeadingLine, lines);
    assert Blocks(outline, Sections(outline), expand) == [];
  }
}
