/** The book build: the metadata file, the chapter list, and one `pandoc` run per requested format,
    after an image-generation step whose failure is only a warning. */
module BuildBook {
  import opened Wrappers
  import opened Text
  import opened Paths
  import opened Disk
  import opened Seqs
  import opened Sorting

  // ----- options -----

  datatype Options = Options(version: string, output: string, pdf: bool, epub: bool, html: bool)

  /** `s.split(sep)[0]`: the text before the first `sep`. */
  function BeforeFirst(s: string, sep: char): (r: string)
    ensures sep !in r
    ensures StartsWith(s, r)
    ensures |r| < |s| ==> s[|r|] == sep
    decreases |s|
  {
    if s == [] || s[0] == sep then [] else [s[0]] + BeforeFirst(s[1..], sep)
  }

  /** The parsed command line, given the ISO timestamp of the start of the run and the option
      values supplied: the version defaults to the ISO date with `-SNAPSHOT`, the output directory
      to `book/generated`; `--pdf` and `--epub` default to on and cannot be switched off. */
  function ParsedOptions(isoTimestamp: string, version: Option<string>, output: Option<string>, html: bool): (o: Options)
    ensures o.pdf && o.epub && o.html == html
    ensures version.None? ==> o.version == BeforeFirst(isoTimestamp, 'T') + "-SNAPSHOT"
    ensures version.Some? ==> o.version == version.value
    ensures output.None? ==> o.output == "book/generated"
    ensures output.Some? ==> o.output == output.value
  {
    Options(version.GetOr(BeforeFirst(isoTimestamp, 'T') + "-SNAPSHOT"), output.GetOr("book/generated"), true, true, html)
  }

  /** The default version is the calendar date of the timestamp, which has no time part. */
  lemma DefaultVersion(isoTimestamp: string)
    ensures var v := ParsedOptions(isoTimestamp, None, None, false).version;
      && StartsWith(isoTimestamp, v[..|v| - 9]) && 'T' !in v[..|v| - 9] && EndsWith(v, "-SNAPSHOT")
  {
    var d := BeforeFirst(isoTimestamp, 'T');
    var v := d + "-SNAPSHOT";
    assert v[..|v| - 9] == d;
  }

  // ----- metadata -----

  const Title: string := "Scala and ZIO: Effect-Oriented Programming"
  const Author: string := "Riccardo Merolla"

  /** The copyright line with the copyright sign U+00A9. */
  function Rights(year: nat): (r: string)
    ensures '\U{00A9}' in r && '\U{00C2}' !in r
  {
    "Copyright " + ['\U{00A9}'] + " " + Decimal(year) + " " + Author
  }

  /** The copyright line as the source text has it: the sign is preceded by U+00C2. */
  function RightsAsWritten(year: nat): string
  {
    "Copyright " + ['\U{00C2}', '\U{00A9}'] + " " + Decimal(year) + " " + Author
  }

  /** The UTF-8 encoding of a code point that takes two bytes. */
  function Utf8TwoBytes(code: nat): (bytes: seq<nat>)
    requires 0x80 <= code < 0x800
    ensures |bytes| == 2 && bytes[0] < 256 && bytes[1] < 256
  {
    [0xC0 + code / 64, 0x80 + code % 64]
  }

  /** Bytes read as ISO 8859-1 characters. */
  function Latin1(bytes: seq<nat>): (s: string)
    requires forall i :: 0 <= i < |bytes| ==> bytes[i] < 256
    ensures |s| == |bytes|
  {
    seq(|bytes|, i requires 0 <= i < |bytes| => bytes[i] as char)
  }

  /** The stray character comes from the UTF-8 bytes of the copyright sign read back as ISO 8859-1:
      the line differs from the intended one, which it contains with one character too many. */
  lemma RightsAsWrittenIsMisencoded(year: nat)
    ensures RightsAsWritten(year) == "Copyright " + Latin1(Utf8TwoBytes(0xA9)) + " " + Decimal(year) + " " + Author
    ensures '\U{00C2}' in RightsAsWritten(year)
    ensures RightsAsWritten(year) != Rights(year)
  {
    assert Latin1(Utf8TwoBytes(0xA9)) == ['\U{00C2}', '\U{00A9}'];
    assert RightsAsWritten(year)[10] == '\U{00C2}';
  }

  /** The metadata entries, in the order the file lists them, with the copyright line as the
      source writes it; `date` is the long US-English date of the run and `year` its year. */
  function Metadata(date: string, version: string, year: nat): (entries: seq<(string, string)>)
    ensures |entries| == 6
    ensures entries[0] == ("title", Title) && entries[1] == ("author", Author)
    ensures entries[2] == ("date", date) && entries[3] == ("version", version)
    ensures entries[4] == ("rights", RightsAsWritten(year)) && entries[5] == ("language", "en-US")
  {
    [("title", Title), ("author", Author), ("date", date), ("version", version),
     ("rights", RightsAsWritten(year)), ("language", "en-US")]
  }

  /** The metadata entries with the intended copyright line. */
  function MetadataIntended(date: string, version: string, year: nat): (entries: seq<(string, string)>)
    ensures |entries| == 6
    ensures entries[4] == ("rights", Rights(year))
  {
    Metadata(date, version, year)[4 := ("rights", Rights(year))]
  }

  /** The metadata written and the intended metadata differ in the `rights` entry only. */
  lemma MetadataDiffersOnlyInRights(date: string, version: string, year: nat)
    ensures var written, intended := Metadata(date, version, year), MetadataIntended(date, version, year);
      && |written| == |intended|
      && (forall i :: 0 <= i < |written| && i != 4 ==> written[i] == intended[i])
      && written[4].0 == intended[4].0 == "rights"
      && written[4] != intended[4]
  {
    RightsAsWrittenIsMisencoded(year);
  }

  /** One `key: "value"` line. */
  function EntryLine(e: (string, string)): string
  {
    e.0 + ": \"" + e.1 + "\"\n"
  }

  function Lines(entries: seq<(string, string)>): (lines: seq<string>)
    ensures |lines| == |entries|
  {
    seq(|entries|, i requires 0 <= i < |entries| => EntryLine(entries[i]))
  }

  /** The metadata file: `---`, the entry lines in order, then `...`. */
  function MetadataText(entries: seq<(string, string)>): string
  {
    "---\n" + Concat(Lines(entries)) + "...\n"
  }

  /** `metadataContent`, built line by line. */
  method SerializeMetadata(entries: seq<(string, string)>) returns (content: string)
    ensures content == MetadataText(entries)
  {
    content := "---\n";
    var i := 0;
    while i < |entries|
      invariant 0 <= i <= |entries|
      invariant content == "---\n" + Concat(Lines(entries[..i]))
    {
      var (key, value) := entries[i];
      LinesSnoc(entries, i);
      content := content + key + ": \"" + value + "\"\n";
      i := i + 1;
    }
    assert entries[..i] == entries;
    content := content + "...\n";
  }

  lemma LinesSnoc(entries: seq<(string, string)>, i: nat)
    requires i < |entries|
    ensures Concat(Lines(entries[..i + 1])) == Concat(Lines(entries[..i])) + entries[i].0 + ": \"" + entries[i].1 + "\"\n"
  {
    assert Lines(entries[..i + 1]) == Lines(entries[..i]) + [EntryLine(entries[i])];
    ConcatSnoc(Lines(entries[..i]), EntryLine(entries[i]));
  }

  /** The file is delimited by `---` and `...`, and the line of entry `i` comes after those of the
      entries before it. */
  lemma MetadataLayout(entries: seq<(string, string)>, i: nat)
    requires i < |entries|
    ensures StartsWith(MetadataText(entries), "---\n") && EndsWith(MetadataText(entries), "...\n")
    ensures OccursAt(MetadataText(entries), EntryLine(entries[i]), 4 + |Concat(Lines(entries[..i]))|)
  {
    var lines := Lines(entries);
    ConcatAround(lines, i);
    assert lines[..i] == Lines(entries[..i]);
    var before := "---\n" + Concat(Lines(entries[..i]));
    var after := Concat(lines[i + 1..]) + "...\n";
    assert MetadataText(entries) == before + EntryLine(entries[i]) + after;
    AppendParts(before, EntryLine(entries[i]), after);
    AppendParts("---\n", Concat(lines), "...\n");
  }

  /** With no line break inside a key or a value, the file has one line per entry plus the two
      delimiters. */
  lemma MetadataLineCount(entries: seq<(string, string)>)
    requires forall i :: 0 <= i < |entries| ==> '\n' !in entries[i].0 && '\n' !in entries[i].1
    ensures Count(MetadataText(entries), '\n') == |entries| + 2
  {
    LinesCount(entries);
    CountAppend("---\n" + Concat(Lines(entries)), "...\n", '\n');
    CountAppend("---\n", Concat(Lines(entries)), '\n');
  }

  lemma {:induction false} LinesCount(entries: seq<(string, string)>)
    requires forall i :: 0 <= i < |entries| ==> '\n' !in entries[i].0 && '\n' !in entries[i].1
    ensures Count(Concat(Lines(entries)), '\n') == |entries|
    decreases |entries|
  {
    if entries != [] {
      var e := entries[0];
      var body := e.0 + ": \"" + e.1 + "\"";
      assert Lines(entries)[1..] == Lines(entries[1..]);
      assert Concat(Lines(entries)) == body + "\n" + Concat(Lines(entries[1..]));
      LinesCount(entries[1..]);
      CountAppend(body + "\n", Concat(Lines(entries[1..])), '\n');
      CountAppend(body, "\n", '\n');
      assert '\n' !in body;
      CountAbsent(body, '\n');
    }
  }

  // ----- chapters -----

  const SrcDir: string := "book/src"
  const MetadataFile: string := "book/src/metadata.yaml"

  /** A chapter file: a Markdown file that is not the metadata. */
  predicate IsChapter(name: string)
  {
    EndsWith(name, ".md") && !StartsWith(name, "metadata")
  }

  function InSrcDir(names: seq<string>): (paths: seq<string>)
    ensures |paths| == |names|
  {
    seq(|names|, i requires 0 <= i < |names| => Join(SrcDir, names[i]))
  }

  /** The chapter files among the names listed in the source directory, as paths, sorted. */
  function ChapterFiles(listing: seq<string>): seq<string>
  {
    Sort(InSrcDir(Filter(IsChapter, listing)))
  }

  /** The chapter list is ascending and holds exactly the source-directory paths of the listed
      chapter names, each as often as it is listed. */
  lemma ChapterFilesExact(listing: seq<string>)
    ensures Sorted(ChapterFiles(listing))
    ensures multiset(ChapterFiles(listing)) == multiset(InSrcDir(Filter(IsChapter, listing)))
    ensures forall p :: p in ChapterFiles(listing) <==> exists n :: n in listing && IsChapter(n) && p == Join(SrcDir, n)
  {
    var chosen := Filter(IsChapter, listing);
    forall p ensures p in ChapterFiles(listing) <==> exists n :: n in listing && IsChapter(n) && p == Join(SrcDir, n) {
      assert p in ChapterFiles(listing) <==> p in multiset(InSrcDir(chosen));
      InSrcDirMembers(chosen, p);
      forall n ensures n in chosen <==> n in listing && IsChapter(n) {
        if n in listing {
          var i :| 0 <= i < |listing| && listing[i] == n;
        }
      }
    }
  }

  /** The paths are the source-directory paths of the names. */
  lemma InSrcDirMembers(names: seq<string>, p: string)
    ensures p in InSrcDir(names) <==> exists n :: n in names && p == Join(SrcDir, n)
  {
    var paths := InSrcDir(names);
    if p in paths {
      var i :| 0 <= i < |paths| && paths[i] == p;
      assert names[i] in names;
    }
    if exists n :: n in names && p == Join(SrcDir, n) {
      var n :| n in names && p == Join(SrcDir, n);
      var j :| 0 <= j < |names| && names[j] == n;
      assert paths[j] == p;
    }
  }

  /** The metadata file is never taken for a chapter. */
  lemma MetadataNotAChapter(listing: seq<string>)
    ensures MetadataFile !in ChapterFiles(listing)
  {
    ChapterFilesExact(listing);
    forall n | n in listing && IsChapter(n) ensures MetadataFile != Join(SrcDir, n) {
      ChapterIsNotMetadata(n);
    }
  }

  lemma ChapterIsNotMetadata(n: string)
    requires IsChapter(n)
    ensures Join(SrcDir, n) != MetadataFile
  {
    assert Join(SrcDir, n) == SrcDir + "/" + n;
    assert Join(SrcDir, n)[9..] == n;
    assert MetadataFile[9..] == "metadata.yaml";
    assert StartsWith("metadata.yaml", "metadata");
  }

  // ----- artefacts and pandoc runs -----

  /** `<output>/scala-zio-book-<version>.<ext>` */
  function Artefact(output: string, version: string, ext: string): (r: string)
    ensures EndsWith(r, "scala-zio-book-" + version + "." + ext)
  {
    Join(output, "scala-zio-book-" + version + "." + ext)
  }

  /** Different formats never share an output file. */
  lemma ArtefactsDiffer(output: string, version: string, e1: string, e2: string)
    requires e1 != e2
    ensures Artefact(output, version, e1) != Artefact(output, version, e2)
  {
    var n1 := "scala-zio-book-" + version + "." + e1;
    var n2 := "scala-zio-book-" + version + "." + e2;
    var k := |"scala-zio-book-" + version + "."|;
    assert n1[k..] == e1 && n2[k..] == e2;
    var j := if output == "" then 0 else if EndsWith(output, "/") then |output| else |output| + 1;
    assert Artefact(output, version, e1)[j..] == n1;
    assert Artefact(output, version, e2)[j..] == n2;
  }

  function PdfArgs(out: string, files: seq<string>): seq<string>
  {
    ["pandoc", "--pdf-engine=xelatex", "--toc", "-V", "documentclass=book", "-V", "geometry=margin=1in",
     "-o", out, MetadataFile] + files
  }

  function EpubArgs(out: string, files: seq<string>): seq<string>
  {
    ["pandoc", "--toc", "-o", out, MetadataFile] + files
  }

  function HtmlArgs(out: string, files: seq<string>): seq<string>
  {
    ["pandoc", "--toc", "--standalone", "-o", out, MetadataFile] + files
  }

  /** Every pandoc argument list runs `pandoc` with a table of contents, names its output after
      `-o`, and ends with the metadata file followed by the chapters. */
  predicate PandocShape(args: seq<string>, out: string, files: seq<string>)
  {
    && |args| >= |files| + 4
    && args[0] == "pandoc" && "--toc" in args[..|args| - |files|]
    && args[|args| - |files| - 3] == "-o" && args[|args| - |files| - 2] == out
    && args[|args| - |files| - 1..] == [MetadataFile] + files
  }

  lemma PandocArgsShape(out: string, files: seq<string>)
    ensures PandocShape(PdfArgs(out, files), out, files)
    ensures PandocShape(EpubArgs(out, files), out, files)
    ensures PandocShape(HtmlArgs(out, files), out, files)
  {
    var p := PdfArgs(out, files);
    assert p[..|p| - |files|][2] == "--toc";
    var e := EpubArgs(out, files);
    assert e[..|e| - |files|][1] == "--toc";
    var h := HtmlArgs(out, files);
    assert h[..|h| - |files|][1] == "--toc";
  }

  /** The pandoc runs of a build, in order: PDF, EPUB, HTML, each when its option is set. */
  function PandocRuns(o: Options, files: seq<string>): seq<seq<string>>
  {
    When(o.pdf, PdfArgs(Artefact(o.output, o.version, "pdf"), files))
    + When(o.epub, EpubArgs(Artefact(o.output, o.version, "epub"), files))
    + When(o.html, HtmlArgs(Artefact(o.output, o.version, "html"), files))
  }

  function When(flag: bool, args: seq<string>): seq<seq<string>>
  {
    if flag then [args] else []
  }

  /** Each artefact is built exactly when its option is set. */
  lemma RunsFollowOptions(o: Options, files: seq<string>)
    ensures PdfArgs(Artefact(o.output, o.version, "pdf"), files) in PandocRuns(o, files) <==> o.pdf
    ensures EpubArgs(Artefact(o.output, o.version, "epub"), files) in PandocRuns(o, files) <==> o.epub
    ensures HtmlArgs(Artefact(o.output, o.version, "html"), files) in PandocRuns(o, files) <==> o.html
  {
    var pdf := PdfArgs(Artefact(o.output, o.version, "pdf"), files);
    var epub := EpubArgs(Artefact(o.output, o.version, "epub"), files);
    var html := HtmlArgs(Artefact(o.output, o.version, "html"), files);
    assert pdf[1] == "--pdf-engine=xelatex" && epub[1] == "--toc" && html[1] == "--toc";
    assert epub[2] == "-o" && html[2] == "--standalone";
  }

  /** `execSync(command)`: whether the command exits successfully. */
  type Exec = string -> bool

  const ImagesCommand: string := "npm run generate-images -- book/src"

  /** The command line of a pandoc run. */
  function Command(args: seq<string>): string
  {
    JoinWith(args, " ")
  }

  /** The commands run in order, up to and including the first that fails, and whether none
      failed. */
  function RunUntilFailure(runs: seq<seq<string>>, exec: Exec): (r: (seq<string>, bool))
    ensures |r.0| <= |runs|
    decreases |runs|
  {
    if runs == [] then ([], true)
    else if !exec(Command(runs[0])) then ([Command(runs[0])], false)
    else
      var rest := RunUntilFailure(runs[1..], exec);
      ([Command(runs[0])] + rest.0, rest.1)
  }

  /** The commands run are those of the first steps, in order; all steps ran and succeeded, or the
      last command run is the only one that failed. */
  lemma {:induction false} RunUntilFailureMeaning(runs: seq<seq<string>>, exec: Exec)
    ensures var r := RunUntilFailure(runs, exec);
      && (forall i :: 0 <= i < |r.0| ==> r.0[i] == Command(runs[i]))
      && (r.1 <==> forall i :: 0 <= i < |runs| ==> exec(Command(runs[i])))
      && (r.1 ==> |r.0| == |runs|)
      && (!r.1 ==> r.0 != [] && !exec(r.0[|r.0| - 1]) && forall i :: 0 <= i < |r.0| - 1 ==> exec(r.0[i]))
    decreases |runs|
  {
    if runs != [] && exec(Command(runs[0])) {
      RunUntilFailureMeaning(runs[1..], exec);
      assert forall i :: 0 < i < |runs| ==> runs[1..][i - 1] == runs[i];
    }
  }

  /** The commands a build runs, and its exit code. */
  function BuildResult(o: Options, files: seq<string>, exec: Exec): (seq<string>, int)
  {
    var r := RunUntilFailure(PandocRuns(o, files), exec);
    ([ImagesCommand] + r.0, if r.1 then 0 else 1)
  }

  /** The build succeeds exactly when every requested pandoc run does, and the image step always
      runs first. */
  lemma ExitCodePolicy(o: Options, files: seq<string>, exec: Exec)
    ensures BuildResult(o, files, exec).0[0] == ImagesCommand
    ensures BuildResult(o, files, exec).1 == 0 <==> forall i :: 0 <= i < |PandocRuns(o, files)| ==> exec(Command(PandocRuns(o, files)[i]))
    ensures BuildResult(o, files, exec).1 == 0 || BuildResult(o, files, exec).1 == 1
  {
    RunUntilFailureMeaning(PandocRuns(o, files), exec);
  }

  lemma {:induction false} JoinWithStart(parts: seq<string>, sep: string)
    requires parts != [] && parts[0] != ""
    ensures JoinWith(parts, sep) != "" && JoinWith(parts, sep)[0] == parts[0][0]
  {
  }

  /** A failing image step changes nothing about the outcome: two runners that agree on every
      other command give the same build. */
  lemma ImagesFailureIsAWarning(o: Options, files: seq<string>, exec: Exec, exec2: Exec)
    requires forall c :: c != ImagesCommand ==> exec(c) == exec2(c)
    ensures BuildResult(o, files, exec) == BuildResult(o, files, exec2)
  {
    var runs := PandocRuns(o, files);
    forall i | 0 <= i < |runs| ensures exec(Command(runs[i])) == exec2(Command(runs[i])) {
      assert runs[i][0] == "pandoc";
      JoinWithStart(runs[i], " ");
      assert Command(runs[i])[0] == 'p' != ImagesCommand[0];
    }
    SameRuns(runs, exec, exec2);
  }

  lemma {:induction false} SameRuns(runs: seq<seq<string>>, exec: Exec, exec2: Exec)
    requires forall i :: 0 <= i < |runs| ==> exec(Command(runs[i])) == exec2(Command(runs[i]))
    ensures RunUntilFailure(runs, exec) == RunUntilFailure(runs, exec2)
    decreases |runs|
  {
    if runs != [] {
      assert forall i :: 0 <= i < |runs| - 1 ==> runs[1..][i] == runs[i + 1];
      SameRuns(runs[1..], exec, exec2);
    }
  }

  // ----- the build -----

  /** The file-system effects of a build: the output directory when it is missing, then the
      metadata file. */
  function BuildEffects(o: Options, date: string, year: nat, s: State): seq<Effect>
  {
    (if o.output in s.dirs then [] else [DirCreated(o.output)])
    + [Written(MetadataFile, MetadataText(Metadata(date, o.version, year)))]
  }

  /** After a build the output directory exists and the metadata file holds the serialised
      metadata. */
  lemma BuildLeavesMetadata(o: Options, date: string, year: nat, s: State)
    ensures var after := Apply(s, BuildEffects(o, date, year, s));
      && o.output in after.dirs
      && MetadataFile in after.files && after.files[MetadataFile] == MetadataText(Metadata(date, o.version, year))
  {
    var es := BuildEffects(o, date, year, s);
    var text := MetadataText(Metadata(date, o.version, year));
    var mkdir := if o.output in s.dirs then [] else [DirCreated(o.output)];
    assert es == mkdir + [Written(MetadataFile, text)] + [];
    ApplyLastWrite(s, mkdir, MetadataFile, text, []);
    ApplyDirs(s, es);
    if o.output !in s.dirs {
      assert es[0].DirCreated? && es[0].dir == o.output;
    }
  }

  /** The build action, with the clock's values, the source-directory listing and the command
      runner supplied; `commands` are the commands run, in order. */
  method Build(o: Options, date: string, year: nat, listing: seq<string>, exec: Exec, fs: FileSystem)
    returns (commands: seq<string>, exitCode: int)
    modifies fs
    ensures (commands, exitCode) == BuildResult(o, ChapterFiles(listing), exec)
    ensures fs.Snapshot() == Apply(old(fs.Snapshot()), BuildEffects(o, date, year, old(fs.Snapshot())))
  {
    ghost var start := fs.Snapshot();
    ghost var mkdir: seq<Effect> := [];
    if !fs.DirExists(o.output) {
      fs.MakeDir(o.output);
      mkdir := [DirCreated(o.output)];
    }
    assert fs.Snapshot() == Apply(start, mkdir);
    var content := SerializeMetadata(Metadata(date, o.version, year));
    ghost var made := fs.Snapshot();
    fs.WriteFile(MetadataFile, content);
    ApplyAppend(start, mkdir, [Written(MetadataFile, content)]);
    assert Apply(made, [Written(MetadataFile, content)]) == Apply(fs.Snapshot(), []);

    var files := ChapterFiles(listing);
    var imagesOk := exec(ImagesCommand);
    var ran, ok := RunFormats(o, files, exec);
    commands := [ImagesCommand] + ran;
    exitCode := if ok then 0 else 1;
  }

  /** The pandoc steps inside the `try`, in order; the first failure abandons the rest. */
  method RunFormats(o: Options, files: seq<string>, exec: Exec) returns (commands: seq<string>, ok: bool)
    ensures (commands, ok) == RunUntilFailure(PandocRuns(o, files), exec)
  {
    var pdf := When(o.pdf, PdfArgs(Artefact(o.output, o.version, "pdf"), files));
    var epub := When(o.epub, EpubArgs(Artefact(o.output, o.version, "epub"), files));
    var html := When(o.html, HtmlArgs(Artefact(o.output, o.version, "html"), files));
    RunsAppend(pdf + epub, html, exec);
    RunsAppend(pdf, epub, exec);
    commands, ok := RunFormat(pdf, exec);
    if !ok {
      return;
    }
    var more;
    more, ok := RunFormat(epub, exec);
    commands := commands + more;
    if !ok {
      return;
    }
    more, ok := RunFormat(html, exec);
    commands := commands + more;
  }

  /** One `if (options.<format>)` block: the pandoc run when the format is requested. */
  method RunFormat(run: seq<seq<string>>, exec: Exec) returns (commands: seq<string>, ok: bool)
    requires |run| <= 1
    ensures (commands, ok) == RunUntilFailure(run, exec)
  {
    if run == [] {
      return [], true;
    }
    var cmd := Command(run[0]);
    assert run[1..] == [] && RunUntilFailure([], exec) == ([], true);
    assert [cmd] + [] == [cmd];
    return [cmd], exec(cmd);
  }

  /** Running two lists of steps one after the other. */
  lemma {:induction false} RunsAppend(a: seq<seq<string>>, b: seq<seq<string>>, exec: Exec)
    ensures RunUntilFailure(a + b, exec) ==
      if RunUntilFailure(a, exec).1
      then (RunUntilFailure(a, exec).0 + RunUntilFailure(b, exec).0, RunUntilFailure(b, exec).1)
      else RunUntilFailure(a, exec)
    decreases |a|
  {
    if a == [] {
      assert a + b == b;
      assert RunUntilFailure(a, exec) == ([], true);
      assert [] + RunUntilFailure(b, exec).0 == RunUntilFailure(b, exec).0;
    } else {
      assert (a + b)[0] == a[0] && (a + b)[1..] == a[1..] + b;
      RunsAppend(a[1..], b, exec);
      var c := Command(a[0]);
      if exec(c) {
        var ra := RunUntilFailure(a[1..], exec);
        var rb := RunUntilFailure(b, exec);
        if ra.1 {
          assert [c] + (ra.0 + rb.0) == [c] + ra.0 + rb.0;
        }
      }
    }
  }
}
