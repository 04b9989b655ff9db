/** The `new-post` command: turns a title into a file name, numbers the post one above the highest
    numbered post already in the blog directory, and writes a post skeleton there. */
module NewPost {
  import opened Wrappers
  import opened Text
  import opened Seqs
  import opened Paths
  import opened Disk

  // ----- the file name -----

  /** `s` without its leading characters outside `[a-z0-9]`. */
  function SkipNonAlnum(s: string): (r: string)
    ensures |r| <= |s| && r == s[|s| - |r|..]
    ensures r == [] || IsLowerAlnum(r[0])
    ensures forall i :: 0 <= i < |s| - |r| ==> !IsLowerAlnum(s[i])
    decreases |s|
  {
    if s == [] || IsLowerAlnum(s[0]) then s else SkipNonAlnum(s[1..])
  }

  /** Only `[a-z0-9-]`. */
  predicate SlugChars(s: string)
  {
    forall i :: 0 <= i < |s| ==> IsLowerAlnum(s[i]) || s[i] == '-'
  }

  /** Never two dashes in a row. */
  predicate NoDoubleDash(s: string)
  {
    forall i :: 0 <= i < |s| - 1 ==> !(s[i] == '-' && s[i + 1] == '-')
  }

  /** `s.replace(/[^a-z0-9]+/g, '-')`: every maximal run of characters outside `[a-z0-9]` becomes
      one dash. */
  function Dashify(s: string): (r: string)
    ensures SlugChars(r) && NoDoubleDash(r)
    ensures |s| > 0 && IsLowerAlnum(s[0]) ==> |r| > 0 && r[0] == s[0]
    ensures (r == []) == (s == [])
    decreases |s|
  {
    if s == [] then []
    else if IsLowerAlnum(s[0]) then
      var t := Dashify(s[1..]);
      ConsSlug(s[0], t);
      [s[0]] + t
    else
      var t := Dashify(SkipNonAlnum(s[1..]));
      ConsSlug('-', t);
      "-" + t
  }

  /** A slug character in front of a slug keeps it a slug, unless a dash meets a dash. */
  lemma ConsSlug(c: char, t: string)
    requires IsLowerAlnum(c) || c == '-'
    requires SlugChars(t) && NoDoubleDash(t)
    requires c == '-' ==> t == [] || t[0] != '-'
    ensures SlugChars([c] + t) && NoDoubleDash([c] + t)
  {
    var r := [c] + t;
    forall i | 0 <= i < |r| - 1
      ensures !(r[i] == '-' && r[i + 1] == '-')
    {
      if i > 0 {
        assert r[i] == t[i - 1] && r[i + 1] == t[i];
      }
    }
  }

  /** `s` without its leading dashes. */
  function TrimLeadingDashes(s: string): (r: string)
    ensures |r| <= |s| && r == s[|s| - |r|..]
    ensures r == [] || r[0] != '-'
    ensures forall i :: 0 <= i < |s| - |r| ==> s[i] == '-'
    decreases |s|
  {
    if s != [] && s[0] == '-' then TrimLeadingDashes(s[1..]) else s
  }

  /** `s` without its trailing dashes. */
  function TrimTrailingDashes(s: string): (r: string)
    ensures |r| <= |s| && r == s[..|r|]
    ensures r == [] || r[|r| - 1] != '-'
    ensures forall i :: |r| <= i < |s| ==> s[i] == '-'
    decreases |s|
  {
    if s != [] && s[|s| - 1] == '-' then TrimTrailingDashes(s[..|s| - 1]) else s
  }

  /** The post's file name stem: lower-cased, runs of other characters turned into a dash, dashes
      at either end removed (`replace(/^-+|-+$/g, '')`). */
  function Slug(title: string): string
  {
    TrimTrailingDashes(TrimLeadingDashes(Dashify(Lower(title))))
  }

  /** A well-formed slug: only `[a-z0-9-]`, no dash at either end and never two in a row. */
  predicate IsSlug(s: string)
  {
    && SlugChars(s) && NoDoubleDash(s)
    && (s == [] || (s[0] != '-' && s[|s| - 1] != '-'))
  }

  /** A slice of a string of slug characters without double dashes is one too. */
  lemma SliceKeepsSlugChars(s: string, a: nat, b: nat)
    requires SlugChars(s) && NoDoubleDash(s) && a <= b <= |s|
    ensures SlugChars(s[a..b]) && NoDoubleDash(s[a..b])
  {
    var t := s[a..b];
    assert forall i :: 0 <= i < |t| ==> t[i] == s[a + i];
  }

  /** A slice of slug characters without double dashes that neither starts nor ends with a dash is
      a slug. */
  lemma SliceIsSlug(s: string, a: nat, b: nat)
    requires SlugChars(s) && NoDoubleDash(s) && a <= b <= |s|
    requires a < b ==> s[a] != '-' && s[b - 1] != '-'
    ensures IsSlug(s[a..b])
  {
    SliceKeepsSlugChars(s, a, b);
  }

  lemma SlugIsWellFormed(title: string)
    ensures IsSlug(Slug(title))
  {
    TrimmedIsSlug(Dashify(Lower(title)));
  }

  /** Trimming the dashes at both ends of a run of slug characters gives a slug. */
  lemma TrimmedIsSlug(d: string)
    requires SlugChars(d) && NoDoubleDash(d)
    ensures IsSlug(TrimTrailingDashes(TrimLeadingDashes(d)))
  {
    var l := TrimLeadingDashes(d);
    SliceKeepsSlugChars(d, |d| - |l|, |d|);
    var r := TrimTrailingDashes(l);
    if r != [] {
      assert r[|r| - 1] == l[|r| - 1];
    }
    SliceIsSlug(l, 0, |r|);
  }

  /** `Dashify` leaves a well-formed run of `[a-z0-9-]` alone. */
  lemma {:induction false} DashifyKeepsSlugs(s: string)
    requires SlugChars(s) && NoDoubleDash(s)
    ensures Dashify(s) == s
    decreases |s|
  {
    if s != [] {
      var t := s[1..];
      assert forall i :: 0 <= i < |t| ==> t[i] == s[i + 1];
      if !IsLowerAlnum(s[0]) {
        assert t == [] || IsLowerAlnum(t[0]);
        assert SkipNonAlnum(t) == t;
      }
      DashifyKeepsSlugs(t);
    }
  }

  lemma LowerKeepsSlugs(s: string)
    requires SlugChars(s)
    ensures Lower(s) == s
  {
  }

  /** Turning a file name stem into a slug again changes nothing. */
  lemma SlugIdempotent(title: string)
    ensures Slug(Slug(title)) == Slug(title)
  {
    var s := Slug(title);
    SlugIsWellFormed(title);
    LowerKeepsSlugs(s);
    DashifyKeepsSlugs(s);
  }

  /** The letters and digits of the lower-cased title survive, in order. */
  lemma SlugKeepsLettersAndDigits(title: string)
    ensures Filter(IsLowerAlnum, Slug(title)) == Filter(IsLowerAlnum, Lower(title))
  {
    var d := Dashify(Lower(title));
    DashifyFilter(Lower(title));
    TrimLeadingFilter(d);
    TrimTrailingFilter(TrimLeadingDashes(d));
  }

  lemma TrimLeadingFilter(d: string)
    ensures Filter(IsLowerAlnum, TrimLeadingDashes(d)) == Filter(IsLowerAlnum, d)
  {
    var l := TrimLeadingDashes(d);
    var lead := d[..|d| - |l|];
    assert d == lead + l;
    assert forall i :: 0 <= i < |lead| ==> lead[i] == d[i] == '-';
    DropNonAlnum(lead, l);
  }

  lemma TrimTrailingFilter(l: string)
    ensures Filter(IsLowerAlnum, TrimTrailingDashes(l)) == Filter(IsLowerAlnum, l)
  {
    var r := TrimTrailingDashes(l);
    var tail := l[|r|..];
    assert l == r + tail;
    assert forall i :: 0 <= i < |tail| ==> tail[i] == l[|r| + i] == '-';
    DropNonAlnum(tail, r);
  }

  /** Adding characters outside `[a-z0-9]` at either end keeps the letters and digits. */
  lemma DropNonAlnum(x: string, y: string)
    requires forall i :: 0 <= i < |x| ==> !IsLowerAlnum(x[i])
    ensures Filter(IsLowerAlnum, x + y) == Filter(IsLowerAlnum, y)
    ensures Filter(IsLowerAlnum, y + x) == Filter(IsLowerAlnum, y)
  {
    FilterNone(IsLowerAlnum, x);
    FilterAppend(IsLowerAlnum, x, y);
    FilterAppend(IsLowerAlnum, y, x);
  }

  /** Replacing the runs lets the letters and digits through, in order. */
  lemma {:induction false} DashifyFilter(s: string)
    ensures Filter(IsLowerAlnum, Dashify(s)) == Filter(IsLowerAlnum, s)
    decreases |s|
  {
    if s != [] {
      var t := s[1..];
      assert s == [s[0]] + t;
      if IsLowerAlnum(s[0]) {
        DashifyFilter(t);
        FilterAppend(IsLowerAlnum, [s[0]], Dashify(t));
        FilterAppend(IsLowerAlnum, [s[0]], t);
      } else {
        var u := SkipNonAlnum(t);
        DashifyFilter(u);
        SkippedNonAlnum(t);
        DropNonAlnum("-", Dashify(u));
        DropNonAlnum([s[0]], t);
      }
    }
  }

  lemma SkippedNonAlnum(t: string)
    ensures Filter(IsLowerAlnum, SkipNonAlnum(t)) == Filter(IsLowerAlnum, t)
  {
    var u := SkipNonAlnum(t);
    var lead := t[..|t| - |u|];
    assert t == lead + u;
    DropNonAlnum(lead, u);
  }

  /** `gsub(/^-/, '')` on a string without line breaks: one leading dash removed. */
  function TrimOneLeadingDash(s: string): string
  {
    if s != [] && s[0] == '-' then s[1..] else s
  }

  /** `gsub(/-$/, '')` on a string without line breaks: one trailing dash removed. */
  function TrimOneTrailingDash(s: string): string
  {
    if s != [] && s[|s| - 1] == '-' then s[..|s| - 1] else s
  }

  /** The Ruby scaffolder's `slugify` (`downcase`, `gsub(/[^a-z0-9]+/, '-')`, `gsub(/^-|-$/, '')`).
      Its anchors are line anchors, but no line break survives the first replacement. */
  function RubySlugify(text: string): string
  {
    TrimOneTrailingDash(TrimOneLeadingDash(Dashify(Lower(text))))
  }

  /** Without double dashes, trimming the leading dashes removes at most one ... */
  lemma OneLeadingDash(d: string)
    requires NoDoubleDash(d)
    ensures TrimLeadingDashes(d) == TrimOneLeadingDash(d)
  {
    if d != [] && d[0] == '-' && |d| > 1 {
      assert d[1] != '-';
      assert TrimLeadingDashes(d[1..]) == d[1..];
    }
  }

  /** ... and so does trimming the trailing ones. */
  lemma OneTrailingDash(l: string)
    requires NoDoubleDash(l)
    ensures TrimTrailingDashes(l) == TrimOneTrailingDash(l)
  {
    if l != [] && l[|l| - 1] == '-' && |l| > 1 {
      assert l[|l| - 2] != '-';
      assert l[..|l| - 1][|l| - 2] == l[|l| - 2];
      assert TrimTrailingDashes(l[..|l| - 1]) == l[..|l| - 1];
    }
  }

  /** Both scaffolders name a post the same way. */
  lemma RubySlugifyIsSlug(title: string)
    ensures RubySlugify(title) == Slug(title)
  {
    var d := Dashify(Lower(title));
    OneLeadingDash(d);
    var l := TrimLeadingDashes(d);
    SliceKeepsSlugChars(d, |d| - |l|, |d|);
    OneTrailingDash(l);
  }

  // ----- numbering -----

  /** The length of the run of digits that starts `s`. */
  function DigitPrefix(s: string): (k: nat)
    ensures k <= |s|
    ensures forall i :: 0 <= i < k ==> IsDigit(s[i])
    ensures k < |s| ==> !IsDigit(s[k])
    decreases |s|
  {
    if s == [] || !IsDigit(s[0]) then 0 else 1 + DigitPrefix(s[1..])
  }

  /** `f.match(/^\d+-.*\.md$/)`: digits, a dash, then anything on one line ending in `.md`. The
      digit run is necessarily the longest one, since a dash is not a digit. */
  predicate IsPostFile(f: string)
  {
    var k := DigitPrefix(f);
    && 1 <= k < |f| && f[k] == '-'
    && EndsWith(f[k + 1..], ".md")
    && forall i :: k + 1 <= i < |f| - 3 ==> !IsLineTerminator(f[i])
  }

  /** `parseInt(f.split('-')[0], 10)`: the value of the leading digits. */
  function PostNumber(f: string): nat
  {
    var k := DigitPrefix(f);
    DigitsValue(f[..k])
  }

  /** The numbers of the post files among `names`, in order. */
  function PostNumbers(names: seq<string>): seq<nat>
    decreases |names|
  {
    if names == [] then []
    else PostNumbers(names[..|names| - 1]) + (if IsPostFile(names[|names| - 1]) then [PostNumber(names[|names| - 1])] else [])
  }

  function Max(xs: seq<nat>): (m: nat)
    requires xs != []
    ensures forall i :: 0 <= i < |xs| ==> xs[i] <= m
    ensures exists i :: 0 <= i < |xs| && xs[i] == m
    decreases |xs|
  {
    if |xs| == 1 then xs[0]
    else
      var m' := Max(xs[..|xs| - 1]);
      assert forall i :: 0 <= i < |xs| - 1 ==> xs[..|xs| - 1][i] == xs[i];
      if xs[|xs| - 1] > m' then xs[|xs| - 1] else m'
  }

  /** The number of the new post: 1 when there is none yet, else one above the highest. */
  function NextNumber(names: seq<string>): nat
  {
    var numbers := PostNumbers(names);
    if numbers == [] then 1 else Max(numbers) + 1
  }

  /** A number is listed exactly when some post file carries it. */
  lemma {:induction false} PostNumbersExact(names: seq<string>)
    ensures forall i :: 0 <= i < |names| && IsPostFile(names[i]) ==> PostNumber(names[i]) in PostNumbers(names)
    ensures forall n :: n in PostNumbers(names) ==> exists i :: 0 <= i < |names| && IsPostFile(names[i]) && PostNumber(names[i]) == n
    decreases |names|
  {
    if names != [] {
      var init := names[..|names| - 1];
      PostNumbersExact(init);
      assert forall i :: 0 <= i < |init| ==> init[i] == names[i];
    }
  }

  /** The new number is above every existing post's number ... */
  lemma NextNumberExceedsAll(names: seq<string>, f: string)
    requires f in names && IsPostFile(f)
    ensures PostNumber(f) < NextNumber(names)
  {
    PostNumbersExact(names);
  }

  /** ... and no higher than needed: it is 1, or one above some existing post's number. */
  lemma NextNumberIsTight(names: seq<string>)
    ensures NextNumber(names) == 1 || exists f :: f in names && IsPostFile(f) && NextNumber(names) == PostNumber(f) + 1
    ensures (forall f :: f in names ==> !IsPostFile(f)) ==> NextNumber(names) == 1
  {
    PostNumbersExact(names);
    var numbers := PostNumbers(names);
    if numbers != [] {
      var i :| 0 <= i < |numbers| && numbers[i] == Max(numbers);
      assert numbers[i] in numbers;
    }
  }

  /** `String(n).padStart(2, '0')` */
  function Padded(n: nat): (r: string)
    ensures |r| >= 2 && AllDigits(r)
    ensures DigitsValue(r) == n
  {
    var d := Decimal(n);
    var r := PadStart(d, 2, '0');
    var z := r[..|r| - |d|];
    assert r == z + d;
    LeadingZeros(z, d);
    DecimalRoundTrip(n);
    r
  }

  /** The new post's file name. */
  function PostFileName(n: nat, slug: string): string
  {
    Padded(n) + "-" + slug + ".md"
  }

  /** The new post is itself a numbered post, carrying its number. */
  lemma PostFileNameIsNumbered(n: nat, slug: string)
    requires IsSlug(slug)
    ensures IsPostFile(PostFileName(n, slug)) && PostNumber(PostFileName(n, slug)) == n
  {
    NumberedName(Padded(n), slug);
  }

  /** Digits, a dash and a slug make a numbered post file name. */
  lemma NumberedName(p: string, slug: string)
    requires IsSlug(slug) && 1 <= |p| && AllDigits(p)
    ensures IsPostFile(p + "-" + slug + ".md") && PostNumber(p + "-" + slug + ".md") == DigitsValue(p)
  {
    var f := p + "-" + slug + ".md";
    assert f == p + ("-" + slug + ".md");
    assert f[..|p|] == p;
    DigitPrefixOf(p, f);
    PostFileNameMatches(f, p, slug);
  }

  /** The pattern accepts the digits, the dash and the slug. */
  lemma PostFileNameMatches(f: string, p: string, slug: string)
    requires IsSlug(slug) && 1 <= |p| && f == p + ("-" + slug + ".md") && DigitPrefix(f) == |p|
    ensures IsPostFile(f)
  {
    var rest := slug + ".md";
    assert f[|p|] == '-';
    assert f[|p| + 1..] == rest;
    assert rest[|rest| - 3..] == ".md";
    OneLineName(f, |p| + 1, slug);
  }

  /** A slug has no line break. */
  lemma OneLineName(f: string, k: nat, slug: string)
    requires IsSlug(slug) && k + |slug| + 3 == |f| && f[k..] == slug + ".md"
    ensures forall i :: k <= i < |f| - 3 ==> !IsLineTerminator(f[i])
  {
    forall i | k <= i < |f| - 3 ensures !IsLineTerminator(f[i]) {
      assert f[i] == f[k..][i - k] == slug[i - k];
    }
  }

  /** The digit run of `p + rest` is `p` when `rest` starts with a non-digit. */
  lemma {:induction false} DigitPrefixOf(p: string, f: string)
    requires AllDigits(p) && |p| < |f| && f[..|p|] == p && !IsDigit(f[|p|])
    ensures DigitPrefix(f) == |p|
    decreases |p|
  {
    if p != [] {
      assert f[0] == p[0];
      assert f[1..][..|p| - 1] == p[1..];
      DigitPrefixOf(p[1..], f[1..]);
    }
  }

  lemma PostNumbersSnoc(names: seq<string>, f: string)
    ensures PostNumbers(names + [f]) == PostNumbers(names) + (if IsPostFile(f) then [PostNumber(f)] else [])
  {
    assert (names + [f])[..|names|] == names;
  }

  /** Every listed number is below the next one. */
  lemma NumbersBelowNext(names: seq<string>)
    ensures forall i :: 0 <= i < |PostNumbers(names)| ==> PostNumbers(names)[i] < NextNumber(names)
  {
  }

  /** A new top element is the maximum. */
  lemma MaxOfTop(xs: seq<nat>, n: nat)
    requires forall i :: 0 <= i < |xs| ==> xs[i] <= n
    ensures Max(xs + [n]) == n
  {
    if xs != [] {
      assert (xs + [n])[..|xs|] == xs;
    }
  }

  /** Running the command again numbers the next post one higher. */
  lemma NextRunNumbersHigher(names: seq<string>, slug: string)
    requires IsSlug(slug)
    ensures NextNumber(names + [PostFileName(NextNumber(names), slug)]) == NextNumber(names) + 1
  {
    var n := NextNumber(names);
    var f := PostFileName(n, slug);
    PostFileNameIsNumbered(n, slug);
    PostNumbersSnoc(names, f);
    NumbersBelowNext(names);
    MaxOfTop(PostNumbers(names), n);
  }

  // ----- the post -----

  /** The first lines of the post's front matter: the title, quoted, and today's date. */
  function FrontMatterHead(title: string, today: string): string
  {
    "---\ntitle: \"" + title + "\"\ndate: " + today + "\n"
  }

  /** The fixed fields of the post's front matter. */
  const FrontMatterFields: string :=
    "tags: [\"scala\", \"zio\", \"functional-programming\"]\n"
    + "excerpt: \"A brief description of what this post covers\"\n"
    + "cover_image: \"/images/default-cover.jpg\"\n"
    + "series: \"99 Bottles of Scala\"\n"

  /** The fixed text after the heading: placeholder sections and a ZIO example in a Scala block. */
  const PostBody: string :=
    "\n"
    + "Introduction to your article...\n"
    + "\n"
    + "## Main Section\n"
    + "\n"
    + "Your content here...\n"
    + "\n"
    + "```scala\n"
    + "// Your Scala code here\n"
    + "import zio._\n"
    + "\n"
    + "object Example extends ZIOAppDefault {\n"
    + "  def run = Console.printLine(\"Hello, ZIO!\")\n"
    + "}\n"
    + "```\n"
    + "\n"
    + "## Conclusion\n"
    + "\n"
    + "Summary and next steps...\n"

  /** The post's front matter, closed by `---` and a blank line. */
  function PostFrontMatter(title: string, today: string): string
  {
    FrontMatterHead(title, today) + FrontMatterFields + "---\n\n"
  }

  function Heading(title: string): string
  {
    "# " + title + "\n"
  }

  /** The post skeleton: front matter, the title as heading, then the fixed body. */
  function PostTemplate(title: string, today: string): string
  {
    PostFrontMatter(title, today) + Heading(title) + PostBody
  }

  /** The skeleton opens with the front matter lines naming the title and the date, closes the
      front matter with `---` and a blank line, and then has the title as its first heading. */
  lemma TemplateCarriesTitle(title: string, today: string)
    ensures StartsWith(PostTemplate(title, today), FrontMatterHead(title, today))
    ensures EndsWith(PostFrontMatter(title, today), "---\n\n")
    ensures OccursAt(PostTemplate(title, today), Heading(title), |PostFrontMatter(title, today)|)
  {
    var head := FrontMatterHead(title, today);
    AppendParts(PostFrontMatter(title, today), Heading(title), PostBody);
    AppendParts(head, FrontMatterFields, "---\n\n");
    AppendParts(head + FrontMatterFields, "---\n\n", "");
    StartsWithTransitive(PostTemplate(title, today), PostFrontMatter(title, today), head);
  }

  /** What `readdirSync(blogDir)` gives: the entry names, a missing directory, or another error. */
  datatype Listing = Entries(names: seq<string>) | Missing | Unreadable(message: string)

  /** The post directory: the `--path` option, `blog` by default. */
  function BlogDir(pathOption: Option<string>): (dir: string)
    ensures pathOption.Some? ==> dir == pathOption.value
    ensures pathOption.None? ==> dir == "blog"
  {
    pathOption.GetOr("blog")
  }

  /** The number the new post gets for a directory listing: 1 for a missing directory. */
  function ListedNextNumber(listing: Listing): nat
  {
    if listing.Entries? then NextNumber(listing.names) else 1
  }

  function PostPath(blogDir: string, n: nat, title: string): string
  {
    Join(blogDir, PostFileName(n, Slug(title)))
  }

  /** What reading the directory does: a missing directory is created, nothing else changes. */
  function ListingEffects(dir: string, listing: Listing): seq<Effect>
  {
    if listing.Missing? then [DirCreated(dir)] else []
  }

  /** The effects of the command: a missing directory is created, another read error ends it with
      exit code 1 before anything is written. */
  function NewPostEffects(title: string, pathOption: Option<string>, listing: Listing, today: string): seq<Effect>
  {
    var dir := BlogDir(pathOption);
    if listing.Unreadable? then []
    else ListingEffects(dir, listing) + [Written(PostPath(dir, ListedNextNumber(listing), title), PostTemplate(title, today))]
  }

  /** The `new-post <title> [-p path]` action; `today` is the current UTC date `YYYY-MM-DD`. */
  method CreatePost(title: string, pathOption: Option<string>, listing: Listing, today: string, fs: FileSystem)
    returns (exitCode: int)
    modifies fs
    ensures exitCode == (if listing.Unreadable? then 1 else 0)
    ensures fs.Snapshot() == Apply(old(fs.Snapshot()), NewPostEffects(title, pathOption, listing, today))
  {
    var filename := Slug(title);
    var blogDir := BlogDir(pathOption);
    ghost var start := fs.Snapshot();
    var nextNum, readable := FindNextNumber(blogDir, listing, fs);
    if !readable {
      assert Apply(start, []) == start;
      return 1;
    }
    var paddedNum := Padded(nextNum);
    var postPath := Join(blogDir, paddedNum + "-" + filename + ".md");
    var content := PostTemplate(title, today);
    assert postPath == PostPath(blogDir, ListedNextNumber(listing), title);
    assert NewPostEffects(title, pathOption, listing, today) == ListingEffects(blogDir, listing) + [Written(postPath, content)];
    ApplySnoc(start, ListingEffects(blogDir, listing), Written(postPath, content));
    fs.WriteFile(postPath, content);
    exitCode := 0;
  }

  /** The `try { readdirSync } catch` part of the action: the next number from the listing, or 1
      with the directory created when it is missing; `readable` is false for any other error. */
  method FindNextNumber(blogDir: string, listing: Listing, fs: FileSystem) returns (nextNum: nat, readable: bool)
    modifies fs
    ensures readable == !listing.Unreadable?
    ensures nextNum == ListedNextNumber(listing)
    ensures fs.Snapshot() == Apply(old(fs.Snapshot()), ListingEffects(blogDir, listing))
  {
    nextNum := 1;
    readable := true;
    ghost var start := fs.Snapshot();
    match listing {
      case Entries(files) =>
        var numbers := PostNumbers(files);
        if |numbers| > 0 {
          nextNum := Max(numbers) + 1;
        }
        assert Apply(start, []) == start;
      case Missing =>
        fs.MakeDir(blogDir);
        assert Apply(start, [DirCreated(blogDir)]) == Apply(fs.Snapshot(), []);
      case Unreadable(_) =>
        readable := false;
        assert Apply(start, []) == start;
    }
  }

  /** After the command, the new post holds the skeleton for its title, at the next number. */
  lemma CreatedPostContent(s: State, title: string, pathOption: Option<string>, listing: Listing, today: string)
    requires !listing.Unreadable?
    ensures var p := PostPath(BlogDir(pathOption), ListedNextNumber(listing), title);
      p in Apply(s, NewPostEffects(title, pathOption, listing, today)).files
      && Apply(s, NewPostEffects(title, pathOption, listing, today)).files[p] == PostTemplate(title, today)
  {
    var p := PostPath(BlogDir(pathOption), ListedNextNumber(listing), title);
    var before := ListingEffects(BlogDir(pathOption), listing);
    assert NewPostEffects(title, pathOption, listing, today) == before + [Written(p, PostTemplate(title, today))];
    ApplySnoc(s, before, Written(p, PostTemplate(title, today)));
  }
}
