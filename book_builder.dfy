/** The Ruby scaffolder's `create_post` and `build`: a dated post created from the post template,
    with the first title placeholder replaced, and the site build delegated to Jekyll. */
module BookBuilder {
  import opened Wrappers
  import opened Text
  import opened Paths
  import opened Disk
  import opened NewPost

  /** The text of the template that `create_post` replaces. */
  const Placeholder: string := "Your Title Here"

  /** The index of the first occurrence of `pat` in `s` at or after `from`, if any. */
  function FindFrom(s: string, pat: string, from: nat): (r: Option<nat>)
    ensures r.Some? ==> from <= r.value && OccursAt(s, pat, r.value)
    ensures r.Some? ==> forall k :: from <= k < r.value ==> !OccursAt(s, pat, k)
    ensures r.None? ==> forall k :: from <= k ==> !OccursAt(s, pat, k)
    decreases |s| - from
  {
    if from + |pat| > |s| then None
    else if s[from..from + |pat|] == pat then Some(from)
    else FindFrom(s, pat, from + 1)
  }

  /** `Some(piece + t)` for `Some(t)`; a raise stays a raise. */
  function Prefixed(piece: string, r: Option<string>): Option<string>
  {
    match r
    case None => None
    case Some(t) => Some(piece + t)
  }

  /** The letter after a backslash that refers to a group: `\1` to `\9`, or `\+` for the last
      matched group. */
  predicate IsGroupReference(c: char)
  {
    '1' <= c <= '9' || c == '+'
  }

  /** Ruby's expansion of the replacement text of `sub` when the pattern is a string: `pre` is the
      text before the match, `m` the match and `post` the text after it. `\0` and `\&` stand for
      the match, `` \` `` and `\'` for the text before and after it, `\\` for one backslash, and
      the group references `\1` to `\9` and `\+` for nothing (a string pattern has no groups); a
      named reference `\k<` raises (`None`), and any other backslash, a trailing one included, is
      kept as written. */
  function Expand(rep: string, pre: string, m: string, post: string): (r: Option<string>)
    ensures '\\' !in rep ==> r == Some(rep)
    decreases |rep|
  {
    if |rep| == 0 then Some("")
    else if rep[0] != '\\' || |rep| == 1 then
      assert rep == rep[..1] + rep[1..];
      Prefixed(rep[..1], Expand(rep[1..], pre, m, post))
    else
      var c, rest := rep[1], rep[2..];
      if c == 'k' && |rest| > 0 && rest[0] == '<' then None
      else
        var piece :=
          if IsGroupReference(c) then ""
          else if c == '0' || c == '&' then m
          else if c == '`' then pre
          else if c == '\'' then post
          else if c == '\\' then "\\"
          else rep[..2];
        Prefixed(piece, Expand(rest, pre, m, post))
  }

  /** One step of the expansion over a character that is not a backslash. */
  lemma ExpandPlainStep(rep: string, pre: string, m: string, post: string)
    requires |rep| > 0 && rep[0] != '\\'
    ensures Expand(rep, pre, m, post) == Prefixed(rep[..1], Expand(rep[1..], pre, m, post))
  {
  }

  /** Two prefixes in a row are one prefix. */
  lemma PrefixedTwice(a: string, b: string, r: Option<string>)
    ensures Prefixed(a, Prefixed(b, r)) == Prefixed(a + b, r)
  {
    match r
    case None =>
    case Some(t) => assert a + (b + t) == a + b + t;
  }

  /** Text without backslashes passes through the expansion unchanged, ahead of whatever follows
      it. */
  lemma {:induction false} ExpandPlainPrefix(x: string, rep: string, pre: string, m: string, post: string)
    requires '\\' !in x
    ensures Expand(x + rep, pre, m, post) == Prefixed(x, Expand(rep, pre, m, post))
    decreases |x|
  {
    var e := Expand(rep, pre, m, post);
    if |x| == 0 {
      assert x + rep == rep;
      PrefixedTwice("", "", e);
      assert "" + "" == "";
      assert Prefixed("", e) == e by {
        match e
        case None =>
        case Some(t) => assert "" + t == t;
      }
    } else {
      var xs := x + rep;
      assert xs[0] == x[0] && xs[..1] == x[..1] && xs[1..] == x[1..] + rep;
      ExpandPlainStep(xs, pre, m, post);
      ExpandPlainPrefix(x[1..], rep, pre, m, post);
      PrefixedTwice(x[..1], x[1..], e);
      assert x[..1] + x[1..] == x;
    }
  }

  /** A group reference at the end of the replacement vanishes (a string pattern has no groups):
      `Part \1` and `Part \+` give `Part `. */
  lemma ExpandDropsGroupReference(x: string, d: char, pre: string, m: string, post: string)
    requires '\\' !in x && IsGroupReference(d)
    ensures Expand(x + ['\\', d], pre, m, post) == Some(x)
  {
    var g := ['\\', d];
    assert g[2..] == [];
    assert |g| == 2 && g[0] == '\\' && g[1] == d;
    assert Expand(g, pre, m, post) == Prefixed("", Expand([], pre, m, post));
    assert "" + "" == "";
    assert Expand(g, pre, m, post) == Some("");
    ExpandPlainPrefix(x, g, pre, m, post);
    assert x + "" == x;
  }

  /** A named reference raises, wherever it stands after plain text. */
  lemma ExpandNamedReferenceRaises(x: string, y: string, pre: string, m: string, post: string)
    requires '\\' !in x
    ensures Expand(x + ['\\', 'k', '<'] + y, pre, m, post) == None
  {
    var named := ['\\', 'k', '<'] + y;
    assert named[0] == '\\' && named[1] == 'k' && named[2..][0] == '<';
    assert x + ['\\', 'k', '<'] + y == x + named;
    ExpandPlainPrefix(x, named, pre, m, post);
  }

  /** `\&` stands for the match and `\\` for one backslash. */
  lemma ExpandMatchAndBackslash(pre: string, m: string, post: string)
    ensures Expand("\\&", pre, m, post) == Some(m)
    ensures Expand("\\\\", pre, m, post) == Some("\\")
  {
    var amp, bs := "\\&", "\\\\";
    assert amp[0] == '\\' && amp[1] == '&' && amp[2..] == "";
    assert bs[0] == '\\' && bs[1] == '\\' && bs[2..] == "";
    assert m + "" == m && "\\" + "" == "\\";
  }

  /** Ruby's `s.sub(pat, rep)` with a string pattern: the first occurrence replaced by the
      expansion of `rep`, if there is one; `None` when the expansion raises. */
  function SubFirst(s: string, pat: string, rep: string): Option<string>
  {
    match FindFrom(s, pat, 0)
    case None => Some(s)
    case Some(k) =>
      match Expand(rep, s[..k], pat, s[k + |pat|..])
      case None => None
      case Some(e) => Some(s[..k] + e + s[k + |pat|..])
  }

  /** Only the first occurrence is replaced: everything before it stays, the expanded replacement
      follows, then the rest of the text unchanged (later occurrences included), and a replacement
      without backslashes is inserted as it is; without an occurrence the text is unchanged, and
      the replacement is not even expanded. */
  lemma SubFirstReplacesFirstOnly(s: string, pat: string, rep: string)
    ensures (forall k :: !OccursAt(s, pat, k)) ==> SubFirst(s, pat, rep) == Some(s)
    ensures forall k :: OccursAt(s, pat, k) && (forall j :: 0 <= j < k ==> !OccursAt(s, pat, j)) ==>
      var e := Expand(rep, s[..k], pat, s[k + |pat|..]);
      && (e.None? ==> SubFirst(s, pat, rep) == None)
      && (e.Some? ==> SubFirst(s, pat, rep) == Some(s[..k] + e.value + s[k + |pat|..]))
      && ('\\' !in rep ==> SubFirst(s, pat, rep) == Some(s[..k] + rep + s[k + |pat|..]))
  {
    forall k | OccursAt(s, pat, k) && (forall j :: 0 <= j < k ==> !OccursAt(s, pat, j))
      ensures var e := Expand(rep, s[..k], pat, s[k + |pat|..]);
        && (e.None? ==> SubFirst(s, pat, rep) == None)
        && (e.Some? ==> SubFirst(s, pat, rep) == Some(s[..k] + e.value + s[k + |pat|..]))
        && ('\\' !in rep ==> SubFirst(s, pat, rep) == Some(s[..k] + rep + s[k + |pat|..]))
    {
      var r := FindFrom(s, pat, 0);
      assert r.Some? && r.value == k;
    }
  }

  /** After the substitution a title without backslashes is in the text, where the first
      placeholder stood, whenever the placeholder was. */
  lemma SubFirstInsertsTitle(s: string, title: string)
    requires exists k :: OccursAt(s, Placeholder, k)
    requires '\\' !in title
    ensures SubFirst(s, Placeholder, title).Some?
    ensures OccursAt(SubFirst(s, Placeholder, title).value, title, FindFrom(s, Placeholder, 0).value)
  {
    var k :| OccursAt(s, Placeholder, k);
    var r := FindFrom(s, Placeholder, 0);
    assert r.Some?;
    var i := r.value;
    var t := SubFirst(s, Placeholder, title).value;
    assert t == s[..i] + title + s[i + |Placeholder|..];
    assert t[i..i + |title|] == title;
  }

  /** A title ending with a group reference loses it: in a template that is just the pattern,
      `Part \1` leaves `Part `, which does not hold the title. */
  lemma GroupReferenceDropped(pat: string, x: string, d: char)
    requires '\\' !in x && IsGroupReference(d)
    ensures SubFirst(pat, pat, x + ['\\', d]) == Some(x)
    ensures !Contains(x, x + ['\\', d])
  {
    assert pat[0..0 + |pat|] == pat;
    assert FindFrom(pat, pat, 0) == Some(0);
    assert pat[..0] == "" && pat[0 + |pat|..] == "";
    ExpandDropsGroupReference(x, d, "", pat, "");
    assert "" + x + "" == x;
  }

  /** Ruby's `File.join(a, b)` for a non-empty `a` and a relative `b`: one separator between them. */
  function FileJoin(a: string, b: string): (r: string)
    ensures EndsWith(r, b)
  {
    if EndsWith(a, "/") then a + b else a + "/" + b
  }

  /** The post's destination, `<pwd>/blog/<date>-<slug>.md`. */
  function Destination(title: string, now: string, pwd: string): string
  {
    FileJoin(FileJoin(pwd, "blog"), now + "-" + RubySlugify(title) + ".md")
  }

  /** The post lands directly in the blog directory, named by its date and the title's slug
      (`now` is a `YYYY-MM-DD` date, which has no separator). */
  lemma DestinationInBlogDir(title: string, now: string, pwd: string)
    requires '/' !in now
    ensures Dirname(Destination(title, now, pwd)) == FileJoin(pwd, "blog")
    ensures Basename(Destination(title, now, pwd)) == now + "-" + Slug(title) + ".md"
  {
    RubySlugifyIsSlug(title);
    SlugIsWellFormed(title);
    var dir := FileJoin(pwd, "blog");
    assert dir[|dir| - 1] == 'g';
    NamedInDir(dir, now, Slug(title));
  }

  /** A dated slug name joined to a directory not ending in a separator lies directly in it. */
  lemma NamedInDir(dir: string, now: string, slug: string)
    requires dir != "" && !EndsWith(dir, "/")
    requires '/' !in now && SlugChars(slug)
    ensures Dirname(FileJoin(dir, now + "-" + slug + ".md")) == dir
    ensures Basename(FileJoin(dir, now + "-" + slug + ".md")) == now + "-" + slug + ".md"
  {
    var name := now + "-" + slug + ".md";
    assert '/' !in slug;
    assert '/' !in name;
    assert FileJoin(dir, name) == Join(dir, name);
    DirnameOfJoin(dir, name);
    BasenameOfJoin(dir, name);
  }

  /** How `create_post` ends: the post was written, reading the template raised, or expanding the
      title as a replacement raised (a `\k<` in the title). */
  datatype Outcome = Created(dest: string) | TemplateMissing | ReplacementRaised

  /** The effects of `create_post`: the blog directory is made sure of before the template is read;
      then the post is written with the placeholder replaced, unless the replacement raises. */
  function CreatePostEffects(title: string, now: string, pwd: string, template: string, s: State): seq<Effect>
  {
    var dest := Destination(title, now, pwd);
    [DirCreated(Dirname(dest))]
    + if template !in s.files then []
      else match SubFirst(s.files[template], Placeholder, title)
        case None => []
        case Some(content) => [Written(dest, content)]
  }

  /** `create_post(title)`; `now` is the UTC date `YYYY-MM-DD`, `pwd` the working directory and
      `template` the resolved template path. */
  method CreatePost(title: string, now: string, pwd: string, template: string, fs: FileSystem)
    returns (outcome: Outcome)
    modifies fs
    ensures outcome == (if template !in old(fs.files) then TemplateMissing
                        else if SubFirst(old(fs.files)[template], Placeholder, title).None? then ReplacementRaised
                        else Created(Destination(title, now, pwd)))
    ensures fs.Snapshot() == Apply(old(fs.Snapshot()), CreatePostEffects(title, now, pwd, template, old(fs.Snapshot())))
  {
    ghost var start := fs.Snapshot();
    var filename := now + "-" + RubySlugify(title) + ".md";
    var dest := FileJoin(FileJoin(pwd, "blog"), filename);
    fs.MakeDir(Dirname(dest));
    ghost var made := fs.Snapshot();
    if template !in fs.files {
      assert Apply(start, [DirCreated(Dirname(dest))]) == Apply(made, []);
      return TemplateMissing;
    }
    var replaced := SubFirst(fs.files[template], Placeholder, title);
    if replaced.None? {
      assert Apply(start, [DirCreated(Dirname(dest))]) == Apply(made, []);
      return ReplacementRaised;
    }
    var content := replaced.value;
    fs.WriteFile(dest, content);
    ghost var es := [DirCreated(Dirname(dest)), Written(dest, content)];
    assert es[1..] == [Written(dest, content)];
    assert Apply(start, es) == Apply(made, [Written(dest, content)]) == Apply(fs.Snapshot(), []);
    outcome := Created(dest);
  }

  /** The created post holds a title without backslashes whenever the template has the
      placeholder. */
  lemma CreatedPostHasTitle(title: string, now: string, pwd: string, template: string, s: State)
    requires template in s.files && exists k :: OccursAt(s.files[template], Placeholder, k)
    requires '\\' !in title
    ensures var after := Apply(s, CreatePostEffects(title, now, pwd, template, s));
      && Destination(title, now, pwd) in after.files
      && Contains(after.files[Destination(title, now, pwd)], title)
  {
    var dest := Destination(title, now, pwd);
    SubFirstInsertsTitle(s.files[template], title);
    var content := SubFirst(s.files[template], Placeholder, title).value;
    var es := CreatePostEffects(title, now, pwd, template, s);
    assert es == [DirCreated(Dirname(dest))] + [Written(dest, content)] + [];
    ApplyLastWrite(s, [DirCreated(Dirname(dest))], dest, content, []);
  }

  /** The site build: `bundle exec jekyll build`. */
  const BuildCommand: string := "bundle exec jekyll build"

  /** `build`, with the command runner external; `TTY::Command#run` raises when the command fails,
      which `ok` reports. */
  method Build(run: string -> bool) returns (ok: bool)
    ensures ok == run(BuildCommand)
  {
    ok := run(BuildCommand);
  }
}
