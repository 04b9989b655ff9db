/** The ray.so image converter: for every Markdown file under the given directories it records
    all fenced blocks and has a browser render each Scala block (language compared ignoring case)
    to `images/<name>/code-<i>.png` beside the file, where `i` counts every block of the file. */
module ConvertToRay {
  import opened Wrappers
  import opened Text
  import opened Paths
  import opened Disk
  import opened Markdown

  /** The directories processed: the arguments, or `./blog` then `./book/src` when there are none. */
  function Directories(args: seq<string>): (dirs: seq<string>)
    ensures |args| > 0 ==> dirs == args
    ensures |args| == 0 ==> dirs == ["./blog", "./book/src"]
  {
    if |args| > 0 then args else ["./blog", "./book/src"]
  }

  /** Only a block whose lower-cased language is `scala` gets an image. */
  predicate GetsImage(b: CodeBlock)
  {
    Lower(b.language) == "scala"
  }

  /** `<dirname>/images/<basename without extension>` */
  function ImageDir(filePath: string): string
  {
    Join(Join(Dirname(filePath), "images"), BasenameWithout(filePath, ExtName(filePath)))
  }

  function ImageName(i: nat): string
  {
    "code-" + Decimal(i) + ".png"
  }

  /** The image for block `i` of a file. */
  function ImagePath(filePath: string, i: nat): string
  {
    Join(ImageDir(filePath), ImageName(i))
  }

  /** What the browser session of `generateRayImage` ends with: a screenshot of the editor, no
      editor element to screenshot (an error is logged, nothing is written), an exception thrown
      before anything is saved, either before the output directory is made (`late` false:
      launch, navigation, editing) or after it (`late` true: element lookup, screenshot), or an
      exception from `browser.close()` once the screenshot step is over (`saved` is the
      screenshot it wrote, `None` when there was no editor). */
  datatype Shot = Captured(png: string) | NoEditor | Crashed(late: bool) | CloseFailed(saved: Option<string>)

  /** The session threw; `processMarkdownFile`'s handler catches it and leaves the loop. */
  predicate Threw(s: Shot)
  {
    s.Crashed? || s.CloseFailed?
  }

  /** The screenshot the session saved, if any. */
  function Saved(s: Shot): Option<string>
  {
    match s
    case Captured(png) => Some(png)
    case CloseFailed(saved) => saved
    case _ => None
  }

  /** The browser automation, given the code and the language; it is external. */
  type Browser = (string, string) -> Shot

  /** The effects of `generateRayImage`: it makes sure the image's directory exists and writes the
      screenshot; an exception stops it where it is thrown. */
  function RayImageEffects(code: string, language: string, outputPath: string, browser: Browser): seq<Effect>
  {
    match browser(code, language)
    case Captured(png) => [DirCreated(Dirname(outputPath)), Written(outputPath, png)]
    case NoEditor => [DirCreated(Dirname(outputPath))]
    case Crashed(late) => if late then [DirCreated(Dirname(outputPath))] else []
    case CloseFailed(Some(png)) => [DirCreated(Dirname(outputPath)), Written(outputPath, png)]
    case CloseFailed(None) => [DirCreated(Dirname(outputPath))]
  }

  /** The effects of the image loop from block `i` on. An exception leaves the loop: it is caught by
      `processMarkdownFile`'s handler, so the remaining blocks of the file get no image. */
  function ImagesFrom(blocks: seq<CodeBlock>, i: nat, outputDir: string, browser: Browser): seq<Effect>
    decreases |blocks| - i
  {
    if i >= |blocks| then []
    else if !GetsImage(blocks[i]) then ImagesFrom(blocks, i + 1, outputDir, browser)
    else if Threw(browser(blocks[i].code, blocks[i].language)) then
      RayImageEffects(blocks[i].code, blocks[i].language, Join(outputDir, ImageName(i)), browser)
    else RayImageEffects(blocks[i].code, blocks[i].language, Join(outputDir, ImageName(i)), browser)
         + ImagesFrom(blocks, i + 1, outputDir, browser)
  }

  /** The effects of `processMarkdownFile`: nothing for a file without blocks, else the image
      directory and then the images. */
  function FileEffects(doc: Document, browser: Browser): seq<Effect>
  {
    if |doc.fences| == 0 then []
    else [DirCreated(ImageDir(doc.path))] + ImagesFrom(RecordedBlocks(doc.fences), 0, ImageDir(doc.path), browser)
  }

  /** `generateRayImage`; `ok` is false when it throws. */
  method GenerateRayImage(code: string, language: string, outputPath: string, browser: Browser, fs: FileSystem)
    returns (ok: bool)
    modifies fs
    ensures ok == !Threw(browser(code, language))
    ensures fs.Snapshot() == Apply(old(fs.Snapshot()), RayImageEffects(code, language, outputPath, browser))
  {
    var shot := browser(code, language);
    if shot.Crashed? && !shot.late {
      assert RayImageEffects(code, language, outputPath, browser) == [];
      assert Apply(fs.Snapshot(), []) == fs.Snapshot();
      return false;
    }
    ghost var start := fs.Snapshot();
    var outputDir := Dirname(outputPath);
    fs.EnsureDir(outputDir);
    assert fs.Snapshot() == Step(start, DirCreated(outputDir));
    ghost var made := fs.Snapshot();
    if Saved(shot).Some? {
      var png := Saved(shot).value;
      fs.WriteFile(outputPath, png);
      assert [DirCreated(outputDir), Written(outputPath, png)][1..] == [Written(outputPath, png)];
      assert Apply(start, [DirCreated(outputDir), Written(outputPath, png)]) == Apply(made, [Written(outputPath, png)]);
      assert RayImageEffects(code, language, outputPath, browser) == [DirCreated(outputDir), Written(outputPath, png)];
      assert Apply(made, [Written(outputPath, png)]) == Apply(fs.Snapshot(), []) == fs.Snapshot();
    } else {
      assert Apply(start, [DirCreated(outputDir)]) == Apply(made, []);
      assert RayImageEffects(code, language, outputPath, browser) == [DirCreated(outputDir)];
      assert Apply(made, []) == made;
    }
    ok := !Threw(shot);
  }

  /** One step of the image loop. */
  lemma ImagesFromStep(blocks: seq<CodeBlock>, i: nat, outputDir: string, browser: Browser)
    requires i < |blocks|
    ensures var here := RayImageEffects(blocks[i].code, blocks[i].language, Join(outputDir, ImageName(i)), browser);
      ImagesFrom(blocks, i, outputDir, browser) ==
        if !GetsImage(blocks[i]) then ImagesFrom(blocks, i + 1, outputDir, browser)
        else if Threw(browser(blocks[i].code, blocks[i].language)) then here
        else here + ImagesFrom(blocks, i + 1, outputDir, browser)
  {
  }

  /** A file with blocks first gets its image directory, then the images of the loop. */
  lemma FileEffectsStart(doc: Document, browser: Browser, s: State)
    requires |doc.fences| > 0
    ensures Apply(s, FileEffects(doc, browser))
            == Apply(Step(s, DirCreated(ImageDir(doc.path))), ImagesFrom(RecordedBlocks(doc.fences), 0, ImageDir(doc.path), browser))
  {
    var rest := ImagesFrom(RecordedBlocks(doc.fences), 0, ImageDir(doc.path), browser);
    assert ([DirCreated(ImageDir(doc.path))] + rest)[1..] == rest;
  }

  /** One pass of the image loop over block `i`: a non-Scala block is skipped, a Scala block is
      screenshot; `stop` when the screenshot threw, which leaves the loop. */
  method ImageBlock(blocks: seq<CodeBlock>, i: nat, outputDir: string, browser: Browser, fs: FileSystem)
    returns (stop: bool)
    requires i < |blocks|
    modifies fs
    ensures stop == (GetsImage(blocks[i]) && Threw(browser(blocks[i].code, blocks[i].language)))
    ensures stop ==> fs.Snapshot() == Apply(old(fs.Snapshot()), ImagesFrom(blocks, i, outputDir, browser))
    ensures !stop ==> Apply(fs.Snapshot(), ImagesFrom(blocks, i + 1, outputDir, browser))
                      == Apply(old(fs.Snapshot()), ImagesFrom(blocks, i, outputDir, browser))
  {
    var block := blocks[i];
    ImagesFromStep(blocks, i, outputDir, browser);
    stop := false;
    if Lower(block.language) == "scala" {
      ghost var before := fs.Snapshot();
      var outputPath := Join(outputDir, ImageName(i));
      var ok := GenerateRayImage(block.code, block.language, outputPath, browser, fs);
      stop := !ok;
      if ok {
        ApplyAppend(before, RayImageEffects(block.code, block.language, outputPath, browser),
                    ImagesFrom(blocks, i + 1, outputDir, browser));
      }
    }
  }

  /** `processMarkdownFile` */
  method ProcessMarkdownFile(doc: Document, browser: Browser, fs: FileSystem)
    modifies fs
    ensures fs.Snapshot() == Apply(old(fs.Snapshot()), FileEffects(doc, browser))
  {
    var codeBlocks := RecordCodeBlocks(doc.fences);
    if |codeBlocks| == 0 {
      return;
    }
    ghost var start := fs.Snapshot();
    var outputDir := ImageDir(doc.path);
    fs.EnsureDir(outputDir);
    ghost var mid := fs.Snapshot();
    assert mid == Step(start, DirCreated(outputDir));
    FileEffectsStart(doc, browser, start);
    ImageLoop(codeBlocks, outputDir, browser, fs);
    assert fs.Snapshot() == Apply(mid, ImagesFrom(RecordedBlocks(doc.fences), 0, outputDir, browser));
  }

  /** The `for` loop of `processMarkdownFile` over the blocks; an exception leaves it. */
  method ImageLoop(codeBlocks: seq<CodeBlock>, outputDir: string, browser: Browser, fs: FileSystem)
    modifies fs
    ensures fs.Snapshot() == Apply(old(fs.Snapshot()), ImagesFrom(codeBlocks, 0, outputDir, browser))
  {
    ghost var target := Apply(fs.Snapshot(), ImagesFrom(codeBlocks, 0, outputDir, browser));
    var i := 0;
    while i < |codeBlocks|
      invariant 0 <= i <= |codeBlocks|
      invariant Apply(fs.Snapshot(), ImagesFrom(codeBlocks, i, outputDir, browser)) == target
    {
      var stop := ImageBlock(codeBlocks, i, outputDir, browser, fs);
      if stop {
        return;
      }
      i := i + 1;
    }
    assert ImagesFrom(codeBlocks, i, outputDir, browser) == [];
    assert Apply(fs.Snapshot(), []) == fs.Snapshot();
  }

  /** The effects of processing a list of files in order. */
  function FilesEffects(docs: seq<Document>, browser: Browser): seq<Effect>
    decreases |docs|
  {
    if docs == [] then [] else FilesEffects(docs[..|docs| - 1], browser) + FileEffects(docs[|docs| - 1], browser)
  }

  /** What `glob` finds under a directory: nothing when it does not exist. */
  function Found(tree: DirectoryTree, dir: string): seq<Document>
  {
    if dir in tree then tree[dir] else []
  }

  /** The effects of processing the directories in order. */
  function DirectoriesEffects(dirs: seq<string>, tree: DirectoryTree, browser: Browser): seq<Effect>
    decreases |dirs|
  {
    if dirs == [] then []
    else DirectoriesEffects(dirs[..|dirs| - 1], tree, browser) + FilesEffects(Found(tree, dirs[|dirs| - 1]), browser)
  }

  /** Processing one more file of the list. */
  lemma FilesStep(s: State, files: seq<Document>, j: nat, browser: Browser)
    requires j < |files|
    ensures Apply(s, FilesEffects(files[..j + 1], browser))
            == Apply(Apply(s, FilesEffects(files[..j], browser)), FileEffects(files[j], browser))
  {
    assert files[..j + 1][..j] == files[..j];
    ApplyAppend(s, FilesEffects(files[..j], browser), FileEffects(files[j], browser));
  }

  /** Processing one more directory of the list. */
  lemma DirectoriesStep(s: State, dirs: seq<string>, i: nat, tree: DirectoryTree, browser: Browser)
    requires i < |dirs|
    ensures Apply(s, DirectoriesEffects(dirs[..i + 1], tree, browser))
            == Apply(Apply(s, DirectoriesEffects(dirs[..i], tree, browser)), FilesEffects(Found(tree, dirs[i]), browser))
  {
    assert dirs[..i + 1][..i] == dirs[..i];
    ApplyAppend(s, DirectoriesEffects(dirs[..i], tree, browser), FilesEffects(Found(tree, dirs[i]), browser));
  }

  /** `processMarkdownFiles` */
  method ProcessMarkdownFiles(files: seq<Document>, browser: Browser, fs: FileSystem)
    modifies fs
    ensures fs.Snapshot() == Apply(old(fs.Snapshot()), FilesEffects(files, browser))
  {
    ghost var start := fs.Snapshot();
    var j := 0;
    while j < |files|
      invariant 0 <= j <= |files|
      invariant fs.Snapshot() == Apply(start, FilesEffects(files[..j], browser))
    {
      FilesStep(start, files, j, browser);
      ProcessMarkdownFile(files[j], browser, fs);
      j := j + 1;
    }
    assert files[..j] == files;
  }

  /** `main` */
  method Run(args: seq<string>, tree: DirectoryTree, browser: Browser, fs: FileSystem)
    modifies fs
    ensures fs.Snapshot() == Apply(old(fs.Snapshot()), DirectoriesEffects(Directories(args), tree, browser))
  {
    ghost var start := fs.Snapshot();
    var directories := Directories(args);
    var i := 0;
    while i < |directories|
      invariant 0 <= i <= |directories|
      invariant fs.Snapshot() == Apply(start, DirectoriesEffects(directories[..i], tree, browser))
    {
      DirectoriesStep(start, directories, i, tree, browser);
      ProcessMarkdownFiles(Found(tree, directories[i]), browser, fs);
      i := i + 1;
    }
    assert directories[..i] == directories;
  }

  // ----- properties -----

  /** A block kept by the Scala extractor always gets an image here too. */
  lemma ExtractedBlocksAreImaged(f: Fence)
    requires f.info == Some("scala")
    ensures GetsImage(Recorded(f))
  {
    assert Lower("scala") == "scala";
  }

  /** The language test ignores case: a block gets an image exactly when its language spells
      `scala` with each letter in either case, as `Scala`, `SCALA` or `sCaLa` do. */
  lemma {:induction false} LanguageIgnoresCase(language: string, code: string)
    ensures GetsImage(CodeBlock(language, code)) <==>
      |language| == 5 && forall i :: 0 <= i < 5 ==> language[i] == "scala"[i] || language[i] == "SCALA"[i]
  {
    if GetsImage(CodeBlock(language, code)) {
      forall i | 0 <= i < 5
        ensures language[i] == "scala"[i] || language[i] == "SCALA"[i]
      {
        assert LowerChar(language[i]) == Lower(language)[i] == "scala"[i];
      }
    }
    if |language| == 5 && forall i :: 0 <= i < 5 ==> language[i] == "scala"[i] || language[i] == "SCALA"[i] {
      forall i | 0 <= i < 5
        ensures Lower(language)[i] == "scala"[i]
      {
        assert LowerChar(language[i]) == Lower(language)[i];
      }
    }
  }

  /** Image names hold no separator and differ for different blocks. */
  lemma ImageNamesDiffer(i: nat, k: nat)
    requires i != k
    ensures '/' !in ImageName(i) && ImageName(i) != ImageName(k)
  {
    var di, dk := Decimal(i), Decimal(k);
    assert ImageName(i)[5..5 + |di|] == di;
    assert '/' !in di;
    if ImageName(i) == ImageName(k) {
      assert |di| == |dk|;
      assert dk == ImageName(k)[5..5 + |dk|];
      DecimalInjective(i, k);
      assert false;
    }
  }

  /** A file's image directory is a proper directory name: it ends with the file's base name
      without its extension, which is never empty. */
  lemma ImageDirShape(filePath: string)
    requires Basename(filePath) != ""
    ensures ImageDir(filePath) != "" && !EndsWith(ImageDir(filePath), "/")
    ensures BasenameWithout(filePath, ExtName(filePath)) != ""
    ensures EndsWith(ImageDir(filePath), BasenameWithout(filePath, ExtName(filePath)))
  {
    var b, ext := Basename(filePath), ExtName(filePath);
    var base := BasenameWithout(filePath, ext);
    if ext != "" {
      assert |filePath| >= |b| > |ext|;
      assert base + ext == b;
      assert forall j :: 0 <= j < |base| ==> base[j] == b[j];
    }
    assert base != "" && '/' !in base;
    var dir := ImageDir(filePath);
    assert EndsWith(dir, base);
    assert dir[|dir| - 1] == base[|base| - 1];
  }

  /** The directory `generateRayImage` makes sure of is the image directory `processMarkdownFile`
      already created. */
  lemma ImageParentIsImageDir(filePath: string, i: nat)
    requires Basename(filePath) != ""
    ensures Dirname(ImagePath(filePath, i)) == ImageDir(filePath)
  {
    ImageDirShape(filePath);
    ImageNamesDiffer(i, i + 1);
    DirnameOfJoin(ImageDir(filePath), ImageName(i));
  }

  /** Two blocks of a file never share an image file. */
  lemma ImagePathsDiffer(filePath: string, i: nat, k: nat)
    requires i != k
    ensures ImagePath(filePath, i) != ImagePath(filePath, k)
  {
    ImageNamesDiffer(i, k);
    ImageNamesDiffer(k, i);
    BasenameOfJoin(ImageDir(filePath), ImageName(i));
    BasenameOfJoin(ImageDir(filePath), ImageName(k));
  }

  /** A file without code blocks changes nothing, not even the image directory. */
  lemma NoBlocksNoEffects(doc: Document, browser: Browser)
    requires |doc.fences| == 0
    ensures FileEffects(doc, browser) == []
  {
  }

  /** Block `i` is a Scala block whose screenshot, saved at `code-<i>.png`, is `e`'s content, and
      no Scala block from `j` up to `i` threw. */
  predicate ImageOf(blocks: seq<CodeBlock>, j: nat, outputDir: string, browser: Browser, e: Effect, i: nat)
    requires e.Written?
  {
    && j <= i < |blocks| && GetsImage(blocks[i])
    && Saved(browser(blocks[i].code, blocks[i].language)) == Some(e.content)
    && e.path == Join(outputDir, ImageName(i))
    && forall k :: j <= k < i && GetsImage(blocks[k]) ==> !Threw(browser(blocks[k].code, blocks[k].language))
  }

  /** The only file one image writes is its screenshot, at its own path. */
  lemma WrittenByOneImage(code: string, language: string, outputPath: string, browser: Browser, e: Effect)
    requires e in RayImageEffects(code, language, outputPath, browser) && e.Written?
    ensures Saved(browser(code, language)) == Some(e.content) && e.path == outputPath
  {
  }

  /** Every file the loop writes is the screenshot of a Scala block `i` at `code-<i>.png`, and no
      Scala block before `i` (from `j` on) threw. */
  lemma {:induction false} WrittenIsAnImage(blocks: seq<CodeBlock>, j: nat, outputDir: string, browser: Browser, e: Effect)
    requires e in ImagesFrom(blocks, j, outputDir, browser) && e.Written?
    ensures exists i :: ImageOf(blocks, j, outputDir, browser, e, i)
    decreases |blocks| - j
  {
    if j >= |blocks| {
      assert false;
    } else {
      ImagesFromStep(blocks, j, outputDir, browser);
      var here := RayImageEffects(blocks[j].code, blocks[j].language, Join(outputDir, ImageName(j)), browser);
      if GetsImage(blocks[j]) && e in here {
        WrittenByOneImage(blocks[j].code, blocks[j].language, Join(outputDir, ImageName(j)), browser, e);
        assert ImageOf(blocks, j, outputDir, browser, e, j);
        return;
      }
      var rest := ImagesFrom(blocks, j + 1, outputDir, browser);
      if GetsImage(blocks[j]) {
        assert !Threw(browser(blocks[j].code, blocks[j].language));
        assert ImagesFrom(blocks, j, outputDir, browser) == here + rest;
      }
      assert e in rest;
      WrittenIsAnImage(blocks, j + 1, outputDir, browser, e);
      var i :| ImageOf(blocks, j + 1, outputDir, browser, e, i);
      ImageOfEarlier(blocks, j, outputDir, browser, e, i);
    }
  }

  /** An image of block `i` with no exception from `j + 1` on has none from `j` on either, when
      block `j` did not throw. */
  lemma ImageOfEarlier(blocks: seq<CodeBlock>, j: nat, outputDir: string, browser: Browser, e: Effect, i: nat)
    requires e.Written? && ImageOf(blocks, j + 1, outputDir, browser, e, i)
    requires GetsImage(blocks[j]) ==> !Threw(browser(blocks[j].code, blocks[j].language))
    ensures ImageOf(blocks, j, outputDir, browser, e, i)
  {
  }

  /** A Scala block whose screenshot is saved gets its image when no Scala block before it (from
      `j` on) threw. */
  lemma {:induction false} EveryImageWritten(blocks: seq<CodeBlock>, j: nat, outputDir: string, browser: Browser, i: nat)
    requires j <= i < |blocks| && GetsImage(blocks[i]) && Saved(browser(blocks[i].code, blocks[i].language)).Some?
    requires forall k :: j <= k < i && GetsImage(blocks[k]) ==> !Threw(browser(blocks[k].code, blocks[k].language))
    ensures Written(Join(outputDir, ImageName(i)), Saved(browser(blocks[i].code, blocks[i].language)).value)
            in ImagesFrom(blocks, j, outputDir, browser)
    decreases |blocks| - j
  {
    ImagesFromStep(blocks, j, outputDir, browser);
    var here := RayImageEffects(blocks[j].code, blocks[j].language, Join(outputDir, ImageName(j)), browser);
    var rest := ImagesFrom(blocks, j + 1, outputDir, browser);
    if i == j {
      assert here[1] == Written(Join(outputDir, ImageName(i)), Saved(browser(blocks[i].code, blocks[i].language)).value);
      if !Threw(browser(blocks[j].code, blocks[j].language)) {
        assert ImagesFrom(blocks, j, outputDir, browser) == here + rest;
      }
    } else {
      EveryImageWritten(blocks, j + 1, outputDir, browser, i);
      if GetsImage(blocks[j]) {
        assert ImagesFrom(blocks, j, outputDir, browser) == here + rest;
      }
    }
  }

  /** An exception on a Scala block `c` abandons the rest of the file: every image written is of a
      block before `c`, or of `c` itself when only `browser.close()` threw, after its screenshot. */
  lemma CrashAbandonsFile(blocks: seq<CodeBlock>, outputDir: string, browser: Browser, c: nat, e: Effect)
    requires c < |blocks| && GetsImage(blocks[c]) && Threw(browser(blocks[c].code, blocks[c].language))
    requires e in ImagesFrom(blocks, 0, outputDir, browser) && e.Written?
    ensures exists i: nat :: (i < c || (i == c && browser(blocks[c].code, blocks[c].language).CloseFailed?))
                             && e.path == Join(outputDir, ImageName(i))
  {
    WrittenIsAnImage(blocks, 0, outputDir, browser, e);
    var i: nat :| ImageOf(blocks, 0, outputDir, browser, e, i);
    assert i <= c;
  }

  /** Every Scala block whose screenshot is saved gets its image `code-<i>.png`, when no Scala
      block before it threw. */
  lemma FileImages(doc: Document, browser: Browser, i: nat)
    requires i < |doc.fences| && GetsImage(Recorded(doc.fences[i]))
    requires Saved(browser(doc.fences[i].code, Recorded(doc.fences[i]).language)).Some?
    requires forall k :: 0 <= k < i && GetsImage(Recorded(doc.fences[k]))
                         ==> !Threw(browser(Recorded(doc.fences[k]).code, Recorded(doc.fences[k]).language))
    ensures Written(ImagePath(doc.path, i), Saved(browser(doc.fences[i].code, Recorded(doc.fences[i]).language)).value)
            in FileEffects(doc, browser)
  {
    var blocks := RecordedBlocks(doc.fences);
    var dir := ImageDir(doc.path);
    assert blocks[i] == Recorded(doc.fences[i]);
    forall k | 0 <= k < i && GetsImage(blocks[k])
      ensures !Threw(browser(blocks[k].code, blocks[k].language))
    {
      assert blocks[k] == Recorded(doc.fences[k]);
    }
    EveryImageWritten(blocks, 0, dir, browser, i);
    var images := ImagesFrom(blocks, 0, dir, browser);
    assert Written(Join(dir, ImageName(i)), Saved(browser(blocks[i].code, blocks[i].language)).value) in images;
    assert FileEffects(doc, browser) == [DirCreated(dir)] + images;
  }
}
