# Authoring tools of the "99 Bottles of Scala" blog and book

This project is a verified Dafny model of the decision logic of the blog's and book's authoring
tools. Markdown parsing, screenshots, typesetting and text generation are all done by external
programs; what the tools decide themselves is modelled here:

- **Code-example extractor** (`tools/extract-code-examples.js`, module `ExtractCodeExamples`).
  It keeps the fenced blocks tagged exactly `scala` and names each output file after the first
  `class`/`object`/`trait` the block declares, or else `<sanitised base name>_<index>`. Every kept
  block is written once into `code/src/main/scala/extracted`. The roots `blog` and `book/src` are
  processed in that order, and a missing root is skipped with a warning.
- **Image converters** (`tools/ray-so-generator/convert-to-ray.ts`, `convert-to-carbon.ts`,
  modules `Markdown`, `ConvertToRay`, `ConvertToCarbon`). They record every fenced block and image
  each block whose language, lower-cased, is `scala`. Block `i` of a file is written to
  `<dir>/images/<name>/code-<i>.png`, where `i` counts all blocks. The ray.so browser session and
  the `carbon-now` run are given as functions. For carbon, the model also covers the temporary
  file, the `--save-to`/`--save-as` arguments and the clean-up.
- **Post scaffolding** (`tools/new-post.js`, module `NewPost`; `tools/book_builder/lib/book_builder.rb`,
  module `BookBuilder`). This covers the slug, the next post number (one above the highest numbered
  post), the two-digit padding, the post path and the template. It also covers the Ruby `create_post`,
  which writes a dated file name and replaces the first title placeholder.
- **Book build** (`tools/build-book.js`, module `BuildBook`). This covers the option defaults, the
  metadata file between `---` and `...`, the sorted chapter list, and the artefact names and pandoc
  argument lists. A failing image step is only a warning; the first failing pandoc run ends the
  build with exit code 1.
- **AI post assembly** (`tools/ai-assistant/generate_content.py`, module `GenerateContent`). The
  outline's heading lines become the sections, and the post is the front matter followed by each
  section and its expansion. The two model calls are given as functions.

Shared modules: `Wrappers` (Option), `Seqs` (order-preserving `Filter`), `Text` (character classes,
ASCII lower-casing, decimal numerals, `padStart`, joining), `Paths` (Node's POSIX `path.basename`,
`dirname`, `extname`, `join`), `Sorting` (JavaScript's default string sort, by code point) and `Disk`. `Disk` holds
the `FileSystem` class (a set of directories and a map from path to content), which the tools'
methods change in place. Each such method is proved equal to applying a list of `Effect`s, and
`Disk.Apply` gives the meaning of that list.

Details of the code that the model keeps:

- The extractor writes exactly one file per kept block: the declared name when the block
  declares a class, object or trait, else the positional name (extract-code-examples.js:46-60).
- The extractor's fallback index counts the kept `scala` blocks only, so it is contiguous from 0
  (extract-code-examples.js:23 and 46). The image converters count all blocks.
- The extractor matches the language case-sensitively (extract-code-examples.js:23). The
  converters lower-case it first.
- Sanitising keeps a leading or trailing underscore (`_a_.md` gives `_a_`); only runs of
  underscores collapse (extract-code-examples.js:41-43).

## Model

| member | source | states |
|---|---|---|
| ExtractCodeExamples.ExtractCodeBlocks | tools/extract-code-examples.js:17-32 | the renderer hook's result is exactly the kept blocks: the fences tagged `scala`, code verbatim |
| ExtractCodeExamples.ScalaBlocksInDocumentOrder | tools/extract-code-examples.js:21-27 | block k is the fence at the k-th `scala` position; positions strictly increase; a fence is kept iff its language is exactly `scala` |
| ExtractCodeExamples.ReplaceNonAlnum | tools/extract-code-examples.js:42 | same length; each character kept if in `[A-Za-z0-9]`, else `_` |
| ExtractCodeExamples.SkipUnderscores | tools/extract-code-examples.js:43 | the result is a suffix with no leading `_`, and only `_` was dropped |
| ExtractCodeExamples.CollapseUnderscores | tools/extract-code-examples.js:43 | no two adjacent `_`, never longer, no new characters, empty iff input empty, leading `_` kept iff present |
| ExtractCodeExamples.SanitizedCharacters | tools/extract-code-examples.js:41-43 | a sanitised name has only `[A-Za-z0-9_]` and never `__` |
| ExtractCodeExamples.SanitizeNeverLengthens | tools/extract-code-examples.js:41-43 | sanitising never lengthens |
| ExtractCodeExamples.CollapseFixesSingles | tools/extract-code-examples.js:43 | collapsing changes nothing in a text without `__` |
| ExtractCodeExamples.SanitizeIdempotent | tools/extract-code-examples.js:41-43 | sanitising twice is sanitising once |
| ExtractCodeExamples.SanitizeKeepsAlnum | tools/extract-code-examples.js:41-43 | the letters and digits survive sanitising, in order |
| ExtractCodeExamples.CollapseKeepsAlnum | tools/extract-code-examples.js:43 | collapsing keeps the letters and digits in order |
| ExtractCodeExamples.ReplaceKeepsAlnum | tools/extract-code-examples.js:42 | replacing keeps the letters and digits in order |
| ExtractCodeExamples.BaseNameStripsMarkdownSuffix | tools/extract-code-examples.js:41 | `.md` is removed from the base name exactly when it ends the base name, and the directory never reaches the name |
| ExtractCodeExamples.SkipSpaces | tools/extract-code-examples.js:68 | stops at the first character that is not `\s`, everything skipped is `\s` |
| ExtractCodeExamples.WordEnd | tools/extract-code-examples.js:68 | stops at the first non-word character, everything skipped is `[A-Za-z0-9_]` |
| ExtractCodeExamples.KeywordEnd | tools/extract-code-examples.js:68 | reports the end of the `class`/`object`/`trait` at an index, or that none is there |
| ExtractCodeExamples.KeywordEndUnique | tools/extract-code-examples.js:68 | at most one keyword starts at an index |
| ExtractCodeExamples.MatchAtIsDeclaration | tools/extract-code-examples.js:68 | a match at an index captures `id` iff a whole-word keyword, whitespace and the maximal identifier `id` start there |
| ExtractCodeExamples.MatchIsDeclaration | tools/extract-code-examples.js:68 | what the scan captures at an index is the identifier of a declaration starting there |
| ExtractCodeExamples.DeclarationMatches | tools/extract-code-examples.js:68 | a declaration starting at an index is what the scan captures there |
| ExtractCodeExamples.FirstMatchIsLeftmost | tools/extract-code-examples.js:68 | the scan returns the capture at the leftmost matching index, or none when no index matches |
| ExtractCodeExamples.ExtractClassName | tools/extract-code-examples.js:66-70 | a returned name is an identifier `[a-zA-Z][a-zA-Z0-9_]*` |
| ExtractCodeExamples.ClassNameIsFirstDeclaration | tools/extract-code-examples.js:66-70 | null iff the code has no declaration; otherwise the identifier of a declaration with no declaration starting earlier |
| ExtractCodeExamples.ProcessFile | tools/extract-code-examples.js:35-63 | the file system afterwards is the old one with one write per kept block, in order |
| ExtractCodeExamples.OutputFileNameIsPlain | tools/extract-code-examples.js:46-62 | each output name is non-empty, has no `/`, and ends in `.scala` |
| ExtractCodeExamples.FileWritesLandInOutputDir | tools/extract-code-examples.js:46-62 | exactly one write per kept block, directly in the output directory, `.scala`, content verbatim |
| ExtractCodeExamples.FallbackNamesDiffer | tools/extract-code-examples.js:46-48 | two blocks of a document that declare nothing get different files (contiguous kept-block index) |
| ExtractCodeExamples.FallbackNameInjective | tools/extract-code-examples.js:48 | the fallback name `<base>_<index>.scala` determines its index |
| ExtractCodeExamples.UntargetedFileUnchanged | tools/extract-code-examples.js:56-59 | a file no block targets keeps its presence and its content |
| ExtractCodeExamples.LastBlockWins | tools/extract-code-examples.js:56-59 | a file holds the code of the last block written to it |
| ExtractCodeExamples.RootsWritesInListOrder | tools/extract-code-examples.js:76-86 | the writes of a list of roots are the writes of each root, in list order |
| ExtractCodeExamples.WarningsInListOrder | tools/extract-code-examples.js:76-86 | the warnings of a list of roots come in list order |
| ExtractCodeExamples.MissingRootSkipped | tools/extract-code-examples.js:83-85 | a missing root gives no writes and exactly one `Directory not found` warning |
| ExtractCodeExamples.ProcessFiles | tools/extract-code-examples.js:78-82 | the files of one root are processed in order |
| ExtractCodeExamples.ExtractFrom | tools/extract-code-examples.js:76-86 | the state afterwards applies every existing root's writes in order; the warnings name the missing roots |
| ExtractCodeExamples.ExtractAll | tools/extract-code-examples.js:7-14 | the output directory is created, then `blog` and `book/src` are processed in that order |
| Markdown.Recorded | tools/ray-so-generator/convert-to-ray.ts:17-18 | the recorded block keeps the code; a fence without a language gets `''` |
| Markdown.RecordCodeBlocks | tools/ray-so-generator/convert-to-ray.ts:13-25 | every fence recorded, one block per fence, in document order (the carbon converter's hook, lines 19-31 there, is the same) |
| ConvertToRay.Directories | tools/ray-so-generator/convert-to-ray.ts:146-147 | the arguments when there are any, else `./blog` then `./book/src` |
| ConvertToRay.GenerateRayImage | tools/ray-so-generator/convert-to-ray.ts:28-86 | ensures the image's directory and writes the screenshot; an exception stops it where thrown, a failing `browser.close()` after the screenshot included, and is reported |
| ConvertToRay.ProcessMarkdownFile | tools/ray-so-generator/convert-to-ray.ts:89-123 | the state afterwards applies the file's effects: nothing without blocks, else the image directory and then the images |
| Disk.FileSystem.EnsureDir | tools/ray-so-generator/convert-to-ray.ts:105-107 | afterwards the directory exists and nothing else has changed, whether it existed before or not |
| ConvertToRay.ImageLoop | tools/ray-so-generator/convert-to-ray.ts:110-119 | the state afterwards applies the images of the blocks from the first on, up to and including the first block that throws |
| ConvertToRay.ImageBlock | tools/ray-so-generator/convert-to-ray.ts:111-118 | one pass: it stops exactly when the browser session threw, having done all the remaining effects; otherwise what is left is the images from the next block on |
| ConvertToRay.ProcessMarkdownFiles | tools/ray-so-generator/convert-to-ray.ts:126-142 | the files are processed in order |
| ConvertToRay.Run | tools/ray-so-generator/convert-to-ray.ts:145-152 | the directories are processed in order |
| ConvertToRay.ExtractedBlocksAreImaged | tools/ray-so-generator/convert-to-ray.ts:114 | a block the extractor keeps always gets an image |
| ConvertToRay.LanguageIgnoresCase | tools/ray-so-generator/convert-to-ray.ts:114 | for every language: a block gets an image exactly when its language is `scala` with each of the five letters in either case (so `Scala` and `SCALA` do, `scala3` does not) |
| ConvertToRay.ImageNamesDiffer | tools/ray-so-generator/convert-to-ray.ts:115 | `code-<i>.png` has no `/` and differs for different `i` |
| ConvertToRay.ImageDirShape | tools/ray-so-generator/convert-to-ray.ts:102-103 | the image directory is a non-empty path without a trailing separator, ending in the file's base name without extension, which is non-empty |
| ConvertToRay.ImageParentIsImageDir | tools/ray-so-generator/convert-to-ray.ts:72-75 | the directory `generateRayImage` ensures is the file's image directory |
| ConvertToRay.ImagePathsDiffer | tools/ray-so-generator/convert-to-ray.ts:110-116 | two blocks of a file never share an image path |
| ConvertToRay.NoBlocksNoEffects | tools/ray-so-generator/convert-to-ray.ts:96-99 | a file without blocks changes nothing, not even the image directory |
| ConvertToRay.WrittenIsAnImage | tools/ray-so-generator/convert-to-ray.ts:110-119 | every written file is the saved screenshot of a Scala block `i` at `code-<i>.png`, and no Scala block before `i` threw |
| ConvertToRay.EveryImageWritten | tools/ray-so-generator/convert-to-ray.ts:110-119 | a Scala block whose screenshot is saved is written when no Scala block before it threw |
| ConvertToRay.CrashAbandonsFile | tools/ray-so-generator/convert-to-ray.ts:85-122 | after an exception on block `c`, only blocks before `c` have images, and `c` itself only when `browser.close()` threw after its screenshot |
| ConvertToRay.FileImages | tools/ray-so-generator/convert-to-ray.ts:101-118 | Scala block `i` whose screenshot is saved, with no earlier Scala block throwing, is written to `<dir>/images/<name>/code-<i>.png` |
| ConvertToCarbon.CarbonCommand | tools/ray-so-generator/convert-to-carbon.ts:52 | the command names the temporary file and `--save-to <dirname>` and ends with the fixed style options |
| ConvertToCarbon.GenerateCarbonImage | tools/ray-so-generator/convert-to-carbon.ts:34-62 | the temp file is created and filled, the directory ensured, the image saved on success, the temp file removed in all cases; `ok` is the tool's success |
| ConvertToCarbon.ImageBlock | tools/ray-so-generator/convert-to-carbon.ts:87-93 | one pass of the loop performs that block's effects |
| ConvertToCarbon.ProcessMarkdownFile | tools/ray-so-generator/convert-to-carbon.ts:65-98 | nothing without blocks, else the image directory and then every Scala block's image steps |
| ConvertToCarbon.ImageLoop | tools/ray-so-generator/convert-to-carbon.ts:86-94 | the state afterwards applies the image steps of every Scala block in order; a failed block does not stop the loop |
| ConvertToCarbon.CarbonFilesStep | tools/ray-so-generator/convert-to-carbon.ts:110-112 | one more file appends its effects |
| ConvertToCarbon.CarbonDirectoriesStep | tools/ray-so-generator/convert-to-carbon.ts:125-127 | one more directory appends its effects |
| ConvertToCarbon.ProcessMarkdownFiles | tools/ray-so-generator/convert-to-carbon.ts:101-118 | the files are processed in order |
| ConvertToCarbon.Run | tools/ray-so-generator/convert-to-carbon.ts:121-128 | the directories (default `./blog`, `./book/src`) are processed in order |
| ConvertToCarbon.SavedAtIsImagePath | tools/ray-so-generator/convert-to-carbon.ts:45-52 | `--save-to` joined with `--save-as` plus `.png` is exactly `images/<name>/code-<i>.png` |
| ConvertToCarbon.SavedAtIsPng | tools/ray-so-generator/convert-to-carbon.ts:52 | the saved image ends in `.png` |
| ConvertToCarbon.TempFileOfScalaBlock | tools/ray-so-generator/convert-to-carbon.ts:38 | the temporary file is non-empty and ends with `.` and the block's language (`.scala` in the block's case), never `.png` |
| ConvertToCarbon.TempFileRemoved | tools/ray-so-generator/convert-to-carbon.ts:58-61 | the temporary file is gone afterwards, success or failure |
| ConvertToCarbon.SavedImageContent | tools/ray-so-generator/convert-to-carbon.ts:54 | on success the image holds what the tool produced |
| ConvertToCarbon.CarbonImageUntouched | tools/ray-so-generator/convert-to-carbon.ts:38-61 | one image touches only its temp file and its saved image |
| ConvertToCarbon.CarbonImagesFromKeepsLater | tools/ray-so-generator/convert-to-carbon.ts:86-94 | the loop from `j` performs everything the loop from `j + 1` does |
| ConvertToCarbon.CarbonImagesFromSavesFirst | tools/ray-so-generator/convert-to-carbon.ts:90-92 | a successful Scala block is saved |
| ConvertToCarbon.EveryImageSaved | tools/ray-so-generator/convert-to-carbon.ts:56-57 | a failure does not stop the loop: every later successful Scala block is saved |
| ConvertToCarbon.CarbonUntouched | tools/ray-so-generator/convert-to-carbon.ts:86-94 | the loop touches only `.png` files and its temporary files |
| ConvertToCarbon.TempFilesCleanedUp | tools/ray-so-generator/convert-to-carbon.ts:58-61 | no temporary file survives the loop |
| ConvertToCarbon.AvoidedUntouched | tools/ray-so-generator/convert-to-carbon.ts:86-94 | the loop touches only the temporary files and saved images of its Scala blocks |
| ConvertToCarbon.ImageAvoided | tools/ray-so-generator/convert-to-carbon.ts:38-52 | a block's image is neither a temporary file nor another block's saved image |
| ConvertToCarbon.LaterImagesUntouched | tools/ray-so-generator/convert-to-carbon.ts:86-94 | later blocks never touch an earlier block's image |
| ConvertToCarbon.ImageSurvives | tools/ray-so-generator/convert-to-carbon.ts:86-94 | after the loop, a successful Scala block's image holds what the tool produced |
| ConvertToCarbon.FileImagesSaved | tools/ray-so-generator/convert-to-carbon.ts:86-93 | each successful Scala block `i` is written to `images/<name>/code-<i>.png`, whatever happened before, and after the file that path holds what the tool produced |
| NewPost.SkipNonAlnum | tools/new-post.js:53 | drops exactly the leading characters outside `[a-z0-9]` |
| NewPost.Dashify | tools/new-post.js:53 | only `[a-z0-9-]`, no `--`, a leading letter or digit kept, empty iff input empty |
| NewPost.TrimLeadingDashes | tools/new-post.js:54 | a suffix without a leading `-`; only dashes dropped |
| NewPost.TrimTrailingDashes | tools/new-post.js:54 | a prefix without a trailing `-`; only dashes dropped |
| NewPost.SliceKeepsSlugChars | tools/new-post.js:53-54 | a slice of a well-formed run stays well-formed |
| NewPost.SlugIsWellFormed | tools/new-post.js:51-54 | the slug has only `[a-z0-9-]`, no `-` at either end, never `--` |
| NewPost.DashifyKeepsSlugs | tools/new-post.js:53 | a well-formed run passes through unchanged |
| NewPost.SlugIdempotent | tools/new-post.js:51-54 | slugifying a slug changes nothing |
| NewPost.SlugKeepsLettersAndDigits | tools/new-post.js:51-54 | the lower-cased title's letters and digits survive in order |
| NewPost.RubySlugifyIsSlug | tools/book_builder/lib/book_builder.rb:39-41 | the Ruby `slugify` (one dash trimmed per end, line anchors) equals the JavaScript slug |
| NewPost.OneLeadingDash | tools/book_builder/lib/book_builder.rb:40 | without `--`, trimming leading dashes removes at most one |
| NewPost.OneTrailingDash | tools/book_builder/lib/book_builder.rb:40 | without `--`, trimming trailing dashes removes at most one |
| NewPost.DigitPrefix | tools/new-post.js:62-65 | the length of the maximal leading run of digits |
| NewPost.Max | tools/new-post.js:66 | `Math.max`: bounds every element and is one of them |
| NewPost.PostNumbersExact | tools/new-post.js:62-65 | a number is listed iff some matching file carries it |
| NewPost.NextNumberExceedsAll | tools/new-post.js:58-67 | the next number is above every existing post's number |
| NewPost.NextNumberIsTight | tools/new-post.js:58-67 | it is 1 (always when no file matches) or one above an existing number |
| NewPost.Padded | tools/new-post.js:80 | at least two digits, and its value is the number |
| NewPost.PostFileNameIsNumbered | tools/new-post.js:80-81 | the new file name matches `^\d+-.*\.md$` and carries its number |
| NewPost.NumberedName | tools/new-post.js:62 | digits, a dash, a slug and `.md` match the pattern and read back as the digits' value |
| NewPost.DigitPrefixOf | tools/new-post.js:65 | the digit run of digits followed by a non-digit is those digits |
| NewPost.NextRunNumbersHigher | tools/new-post.js:58-81 | running the command again numbers the next post one higher |
| NewPost.TemplateCarriesTitle | tools/new-post.js:12-21 | the template starts with the `title:` and `date:` lines, closes the front matter, then has `# <title>` |
| NewPost.BlogDir | tools/new-post.js:48 | the `--path` option, `blog` by default |
| NewPost.CreatePost | tools/new-post.js:49-86 | exit code 1 and nothing written on a read error other than a missing directory; otherwise the listing's effects, then the template written at `<blogDir>/<padded>-<slug>.md` |
| NewPost.FindNextNumber | tools/new-post.js:58-77 | the next number from the listing, 1 with the directory created when it is missing, unreadable otherwise |
| NewPost.CreatedPostContent | tools/new-post.js:81-84 | afterwards the post file exists and holds the template for the title |
| BookBuilder.FindFrom | tools/book_builder/lib/book_builder.rb:26 | the first occurrence at or after `from`, or none |
| BookBuilder.Expand | tools/book_builder/lib/book_builder.rb:26 | Ruby's expansion of the replacement: a replacement without backslashes is used as it is |
| BookBuilder.ExpandPlainPrefix | tools/book_builder/lib/book_builder.rb:26 | text without backslashes passes through the expansion unchanged |
| BookBuilder.ExpandDropsGroupReference | tools/book_builder/lib/book_builder.rb:26 | a trailing group reference, `\1` to `\9` or `\+`, vanishes: `Part \1` and `Part \+` give `Part ` |
| BookBuilder.ExpandNamedReferenceRaises | tools/book_builder/lib/book_builder.rb:26 | `\k<` raises |
| BookBuilder.ExpandMatchAndBackslash | tools/book_builder/lib/book_builder.rb:26 | `\&` gives the match and `\\` one backslash |
| BookBuilder.SubFirstReplacesFirstOnly | tools/book_builder/lib/book_builder.rb:26 | only the first occurrence is replaced, by the expanded replacement (raising when the expansion raises); text without one is unchanged |
| BookBuilder.SubFirstInsertsTitle | tools/book_builder/lib/book_builder.rb:26 | a title without backslashes stands where the first placeholder stood |
| BookBuilder.GroupReferenceDropped | tools/book_builder/lib/book_builder.rb:26 | a title ending in a group reference (`\1` to `\9`, `\+`) loses it, so the post does not contain that title |
| BookBuilder.FileJoin | tools/book_builder/lib/book_builder.rb:22 | the joined path ends with the second part |
| BookBuilder.DestinationInBlogDir | tools/book_builder/lib/book_builder.rb:20-22 | the post lies directly in `<pwd>/blog`, named `<date>-<slug>.md` |
| BookBuilder.NamedInDir | tools/book_builder/lib/book_builder.rb:21-22 | a dated slug name joined to a directory not ending in `/` has that directory and that name |
| BookBuilder.CreatePost | tools/book_builder/lib/book_builder.rb:19-29 | creates the blog directory, then writes the template with the placeholder replaced as Ruby's `sub` does; a missing template or a raising replacement writes nothing more |
| BookBuilder.CreatedPostHasTitle | tools/book_builder/spec/new_post_spec.rb:29-34 | the created post's content includes a title without backslashes |
| BookBuilder.Build | tools/book_builder/lib/book_builder.rb:31-35 | runs `bundle exec jekyll build` and reports its success |
| BuildBook.BeforeFirst | tools/build-book.js:13 | `split('T')[0]`: a prefix without `T`, followed by `T` when shorter |
| BuildBook.ParsedOptions | tools/build-book.js:13-17 | version defaults to `<date>-SNAPSHOT`, output to `book/generated`, `--pdf`/`--epub` are always on |
| BuildBook.DefaultVersion | tools/build-book.js:13 | the default version is the timestamp's date part followed by `-SNAPSHOT` |
| BuildBook.Rights | tools/build-book.js:37 | the copyright line carries the sign U+00A9 and no stray U+00C2 |
| BuildBook.RightsAsWrittenIsMisencoded | tools/build-book.js:37 | the line as written is the sign's UTF-8 bytes read as Latin-1, so it differs from the intended line |
| BuildBook.Metadata | tools/build-book.js:28-39 | six entries in source order: the fixed title, author and language, the date and version given, and the copyright line as the source writes it |
| BuildBook.MetadataIntended | tools/build-book.js:28-39 | the same entries with the intended copyright line |
| BuildBook.MetadataDiffersOnlyInRights | tools/build-book.js:37 | the written and the intended metadata differ in the `rights` entry only |
| BuildBook.SerializeMetadata | tools/build-book.js:42-46 | `---`, one `key: "value"` line per entry in order, then `...` |
| BuildBook.LinesSnoc | tools/build-book.js:43-45 | one more entry appends its line |
| BuildBook.MetadataLayout | tools/build-book.js:42-46 | the text starts with `---`, ends with `...`, and entry `i`'s line follows those before it |
| BuildBook.MetadataLineCount | tools/build-book.js:42-46 | without line breaks in keys and values the text has entries + 2 lines |
| BuildBook.ChapterFilesExact | tools/build-book.js:53-56 | ascending, and exactly the `book/src` paths of the names ending `.md` not starting `metadata`, with multiplicity |
| BuildBook.MetadataNotAChapter | tools/build-book.js:41-56 | the metadata file is never a chapter |
| BuildBook.ChapterIsNotMetadata | tools/build-book.js:54-55 | a chapter's path is never the metadata file |
| BuildBook.Artefact | tools/build-book.js:71 | the artefact ends in `scala-zio-book-<version>.<ext>` |
| BuildBook.ArtefactsDiffer | tools/build-book.js:71-108 | different formats never share an output file |
| BuildBook.PandocArgsShape | tools/build-book.js:74-118 | each list starts with `pandoc`, has `--toc`, `-o <output>`, and ends with the metadata file then the chapters |
| BuildBook.RunsFollowOptions | tools/build-book.js:70-122 | each format's run is present iff its option is set |
| BuildBook.RunUntilFailure | tools/build-book.js:60-129 | never runs more commands than steps |
| BuildBook.RunUntilFailureMeaning | tools/build-book.js:60-129 | runs a prefix of the steps in order; success iff every step succeeds; otherwise only the last run failed |
| BuildBook.ExitCodePolicy | tools/build-book.js:126-129 | the image step runs first; exit code 0 iff every pandoc run succeeds, else 1 |
| BuildBook.ImagesFailureIsAWarning | tools/build-book.js:63-67 | the image step's outcome never changes the build's commands or exit code |
| BuildBook.SameRuns | tools/build-book.js:70-122 | runners agreeing on every pandoc command give the same run |
| BuildBook.BuildLeavesMetadata | tools/build-book.js:21-48 | afterwards the output directory exists and the metadata file holds the serialised metadata, with the copyright line as written |
| BuildBook.Build | tools/build-book.js:18-130 | the commands and exit code of the build policy; the output directory if missing, then the metadata file as written |
| BuildBook.RunFormats | tools/build-book.js:69-122 | PDF, EPUB, HTML in order, each when requested; the first failure abandons the rest |
| BuildBook.RunFormat | tools/build-book.js:70-86 | one requested format runs its command once |
| BuildBook.RunsAppend | tools/build-book.js:69-122 | running two lists of steps in sequence stops at the first list's failure |
| Sorting.Insert | tools/build-book.js:56 | inserting into a sorted list keeps it sorted and adds exactly one element |
| Sorting.Sort | tools/build-book.js:56 | the result is ascending and a permutation of the input |
| Sorting.SortedUnique | tools/build-book.js:56 | only one ascending ordering exists, so any correct sort gives `Sort`'s order |
| GenerateContent.Split | tools/ai-assistant/generate_content.py:48 | `split("\n")`: at least one piece, no piece holds the separator |
| GenerateContent.SplitRoundTrip | tools/ai-assistant/generate_content.py:48 | joining the pieces gives back the outline; one more piece than line breaks |
| GenerateContent.StripStart | tools/ai-assistant/generate_content.py:48 | removes exactly the leading whitespace |
| GenerateContent.StripEnd | tools/ai-assistant/generate_content.py:48 | removes exactly the trailing whitespace |
| GenerateContent.StripIdempotent | tools/ai-assistant/generate_content.py:48 | a stripped line has no whitespace at either end and strips to itself |
| GenerateContent.SectionsAreStrippedHeadings | tools/ai-assistant/generate_content.py:48 | every section starts with `#` and is stored stripped |
| GenerateContent.SectionsAreHeadingLines | tools/ai-assistant/generate_content.py:48 | the sections are exactly the stripped heading lines |
| GenerateContent.FrontMatterCarriesTitleAndTopic | tools/ai-assistant/generate_content.py:50-59 | the front matter opens with the title line, embeds the topic in the excerpt, and closes with `---` and a blank line |
| GenerateContent.CreateBlogPost | tools/ai-assistant/generate_content.py:43-66 | the content is the post for the generated outline; the expansions requested are exactly the sections, in order |
| GenerateContent.ExpandSections | tools/ai-assistant/generate_content.py:62-64 | appends `section\n\n<expansion>\n\n` per section in order, one expansion each |
| GenerateContent.BlocksSnoc | tools/ai-assistant/generate_content.py:64 | one more section appends its block |
| GenerateContent.SectionsInOrder | tools/ai-assistant/generate_content.py:62-64 | section `i`'s block follows the front matter and the blocks before it |
| GenerateContent.NoHeadingsFrontMatterOnly | tools/ai-assistant/generate_content.py:48-66 | with no heading lines the post is the front matter alone |
| Text.Decimal | tools/new-post.js:80 | `String(n)`: digits only, no leading zero |
| Text.DecimalRoundTrip | tools/new-post.js:65 | reading a printed number back gives the number |
| Text.LeadingZeros | tools/new-post.js:80 | padding with zeros does not change a numeral's value |
| Text.PadStart | tools/new-post.js:80 | `padStart`: length max(len, width), ends with the input, filled in front |
| Text.Lower | tools/new-post.js:52 | `toLowerCase` on ASCII: same length, only `A`-`Z` change |
| Paths.Basename | tools/extract-code-examples.js:41 | no `/`, and a suffix of the path |
| Paths.BasenameWithout | tools/extract-code-examples.js:41 | the suffix is removed only when the base name is longer and ends with it |
| Paths.ExtName | tools/ray-so-generator/convert-to-ray.ts:102 | empty or a proper suffix of the base name starting with `.` |
| Paths.Join | tools/extract-code-examples.js:48 | one separator between two non-empty parts; the result ends with the second part (without Node's normalisation, see below) |
| Paths.BasenameOfJoin | tools/ray-so-generator/convert-to-ray.ts:115 | joining a plain name gives a path whose base name is that name |
| Paths.DirnameOfJoin | tools/ray-so-generator/convert-to-carbon.ts:45 | ... and whose directory name is that directory |
| Disk.ApplyUntouched | tools/extract-code-examples.js:56-59 | a file no effect touches keeps its presence and content |
| Disk.ApplyLastWrite | tools/extract-code-examples.js:56-59 | a file holds the content of its last write |
| Disk.ApplyDirs | tools/extract-code-examples.js:13 | directories are only ever added, exactly those created |

## Left out

- The Markdown parser (`marked`) is external: a document is modelled by the sequence of fences it reports, each with its language (absent when the fence has none) and its code.
- `glob` traversal and its order are modelled as a given map from each existing root to its documents, in the order `glob` yields them. Reading files, `fs.existsSync` on roots, and absolute paths (`{ absolute: true }` in the carbon converter) are part of that given data.
- Console output is not modelled, apart from the extractor's `Directory not found` warnings.
- The browser automation of the ray.so converter (launch, navigation, editing, screenshot, closing) is a given function. It returns a capture, a missing editor, an exception thrown before or after the directory is made, or an exception from `browser.close()` after the screenshot step.
- `carbon-now`, `pandoc`, `npm run generate-images` and `jekyll build` are given functions that report success or failure. `carbon-now` is assumed to save its image at `<save-to>/<save-as>.png`.
- The names `tmp.fileSync` chooses are given as a function of the block index.
- The OpenAI calls (`generate_blog_outline`, `expand_section`) are given functions. `generate_code_sample` is never called by `create_blog_post`, and `argparse`/`__main__` never writes output; neither is modelled.
- The clock (`new Date()`, `Time.now`, `datetime.now()`, `toLocaleDateString`, `getFullYear`) is read as date strings and a year passed in.
- Case conversion (`toLowerCase`, `downcase`) is ASCII only; Unicode case mapping is not modelled.
- Sorting.Sort: compares characters by code point, while JavaScript's `sort()` (build-book.js:56) compares UTF-16 code units; the two orders differ only for names with characters above U+FFFF next to characters from U+E000 to U+FFFF.
- Disk.FileSystem.MakeDir, Disk.FileSystem.EnsureDir: `mkdirSync(…, { recursive: true })` and `mkdir_p` also create every missing parent directory; the model adds only the directory named.
- ConvertToCarbon.CarbonCommand: the command string goes to a shell unquoted (convert-to-carbon.ts:52), so a path holding a space or a shell metacharacter is split or interpreted there; shell word splitting is not modelled, and the given `carbon` function receives the whole command.
- BuildBook.BuildEffects: `fs.existsSync` (build-book.js:22) is also true when the output path is an existing plain file; the source then skips `mkdirSync` and fails later at `writeFileSync`. The model keeps directories and files apart and creates the directory whenever it is not among the directories.
- GenerateContent.ExpandSections: OpenAI's `message.content` may be `None`, which the f-string at generate_content.py:64 renders as `None`; the given `expand_section` returns a string. Likewise an outline completion of `None` makes `outline.split` raise at generate_content.py:45-48; the model takes the outline as a string.
- Paths.Join: Node's `path.join` also normalises its result (it drops `.` segments, resolves `..` and collapses `//`); the model only puts one separator between the parts. So paths built from a root starting with `./` keep it in the model: `build-book -o ./dist` gives `./dist/scala-zio-book-<v>.pdf` in the pandoc arguments where Node gives `dist/…` (build-book.js:71); `new-post -p ./drafts` gives `./drafts/01-x.md` where Node gives `drafts/01-x.md` (new-post.js:81); the converters' default roots give `ImageDir("./blog/a.md") == "./blog/images/a"` where Node gives `blog/images/a`; and `path.join('a', './b')` is `a/b`, which does not end with `./b`. `Basename`/`Dirname` assume no trailing separator.
- NewPost.PostNumber: `parseInt` is exact here, while JavaScript loses precision above 2^53.
- File-system failures are not modelled: failed writes, `mkdir` failures, a missing `book/src` for `readdirSync` in the book build, a failing `readFileSync` in the converters, and a failing `readFileSync` in the extractor (extract-code-examples.js:37), which nothing catches, so it ends the run and no later file or root is processed. Only the errors the tools handle are: a missing or unreadable blog directory in `new-post`, and a missing template in `create_post`.
- Ruby `File.read` raising for a missing template, and `sub` raising for a `\k<` in the title, are reported as outcomes; the exceptions themselves and `TTY::Command` output are not modelled.
- BookBuilder.SubFirstInsertsTitle, BookBuilder.CreatedPostHasTitle: hold only for titles without backslashes; Ruby's `sub` expands `\0`, `\&`, `` \` ``, `\'`, `\\`, `\1` to `\9` and `\+` in the title, so a title such as `Part \1` is not in the post (BookBuilder.GroupReferenceDropped).
- BookBuilder.Build: `TTY::Command#run` raising is reported as a false result.
- The environment-gated plugins (`plugins/ray_so.rb`, `plugins/ai_assistant.rb`) only shell out to other programs and are not part of this model.
- Type declaration files and test scaffolding (`tools/typings`, `tools/types`, `spec_helper.rb`, `build_spec.rb`) hold no logic.
- The TypeScript tools' `async`/`await` is modelled as sequential loops.
- ConvertToRay.ProcessMarkdownFiles, ConvertToCarbon.ProcessMarkdownFiles: the `catch` around `glob` is not modelled, because the listing is given.
- GenerateContent.CreateBlogPost: the list of expansions requested is a ghost out-parameter, recorded for the proof only.

## Findings

| source | as written | input that shows it | evidently intended | confidence | as-written member | corrected member |
|---|---|---|---|---|---|---|
| tools/build-book.js:37 | the `rights` line reads `Copyright Â© <year> Riccardo Merolla`: the sign's UTF-8 bytes C2 A9 were stored again as text, giving U+00C2 U+00A9 | any year, e.g. 2025: the metadata file says `Copyright Â© 2025 Riccardo Merolla` | `Copyright © <year> Riccardo Merolla`, with the sign U+00A9 only | high (the bytes of line 37 are C3 82 C2 A9); not executed | BuildBook.RightsAsWrittenIsMisencoded | BuildBook.MetadataIntended |
