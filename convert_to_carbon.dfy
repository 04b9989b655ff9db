/** The carbon-now converter: the same selection of blocks and the same image locations as the
    ray.so converter, but each image is produced by the `carbon-now` command line tool from a
    temporary file holding the block's code. A failing command is logged and the loop goes on. */
module ConvertToCarbon {
  import opened Wrappers
  import opened Text
  import opened Paths
  import opened Disk
  import opened Markdown
  import opened ConvertToRay
  import opened Seqs

  /** The `carbon-now` run: given the command line and the code in the temporary file it names,
      the PNG it saves, or `None` when the command fails. It is external. */
  type Carbon = (string, string) -> Option<string>

  /** The name the `tmp` package picks for block `i`, before its `.<language>` postfix. */
  type TempNames = nat -> string

  function TempFile(tempBase: string, language: string): string
  {
    tempBase + "." + language
  }

  /** The `--save-as` argument: the image's base name without `.png`. */
  function SaveAs(outputPath: string): string
  {
    BasenameWithout(outputPath, ".png")
  }

  /** The command `generateCarbonImage` executes. */
  function CarbonCommand(tempFile: string, outputPath: string): (command: string)
    ensures StartsWith(command, "npx carbon-now " + tempFile + " --save-to " + Dirname(outputPath))
    ensures EndsWith(command, " -t dracula --no-window -l scale=1.0 -l lineNumbers=false")
  {
    "npx carbon-now " + tempFile + " --save-to " + Dirname(outputPath) + " --save-as " + SaveAs(outputPath)
      + " -t dracula --no-window -l scale=1.0 -l lineNumbers=false"
  }

  /** Where `carbon-now` saves its image: `<save-to>/<save-as>.png`. */
  function SavedAt(outputPath: string): string
  {
    Join(Dirname(outputPath), SaveAs(outputPath) + ".png")
  }

  /** The effects of `carbonImage`: the temporary file is created empty and filled with the code,
      the output directory is made sure of, the tool saves its image when it succeeds, and the
      temporary file is removed whatever happened. */
  function CarbonImageEffects(code: string, language: string, outputPath: string, tempBase: string, carbon: Carbon): seq<Effect>
  {
    var temp := TempFile(tempBase, language);
    var saved := match carbon(CarbonCommand(temp, outputPath), code)
      case Some(png) => [Written(SavedAt(outputPath), png)]
      case None => [];
    [Written(temp, ""), Written(temp, code), DirCreated(Dirname(outputPath))] + saved + [Removed(temp)]
  }

  /** The effects of the image loop from block `i` on; a failure does not stop it. */
  function CarbonImagesFrom(blocks: seq<CodeBlock>, i: nat, outputDir: string, temps: TempNames, carbon: Carbon): seq<Effect>
    decreases |blocks| - i
  {
    if i >= |blocks| then []
    else if !GetsImage(blocks[i]) then CarbonImagesFrom(blocks, i + 1, outputDir, temps, carbon)
    else CarbonImageEffects(blocks[i].code, blocks[i].language, Join(outputDir, ImageName(i)), temps(i), carbon)
         + CarbonImagesFrom(blocks, i + 1, outputDir, temps, carbon)
  }

  /** The effects of `processMarkdownFile`. */
  function CarbonFileEffects(doc: Document, temps: TempNames, carbon: Carbon): seq<Effect>
  {
    if |doc.fences| == 0 then []
    else [DirCreated(ImageDir(doc.path))] + CarbonImagesFrom(RecordedBlocks(doc.fences), 0, ImageDir(doc.path), temps, carbon)
  }

  /** `generateCarbonImage`; `ok` tells whether the command succeeded (only logged by the source). */
  method GenerateCarbonImage(code: string, language: string, outputPath: string, tempBase: string, carbon: Carbon, fs: FileSystem)
    returns (ok: bool)
    modifies fs
    ensures ok == carbon(CarbonCommand(TempFile(tempBase, language), outputPath), code).Some?
    ensures fs.Snapshot() == Apply(old(fs.Snapshot()), CarbonImageEffects(code, language, outputPath, tempBase, carbon))
  {
    ghost var s0 := fs.Snapshot();
    ghost var done: seq<Effect> := [];
    assert Apply(s0, done) == s0;
    var tempFile := TempFile(tempBase, language);
    ApplySnoc(s0, done, Written(tempFile, ""));
    fs.WriteFile(tempFile, "");
    done := done + [Written(tempFile, "")];
    ApplySnoc(s0, done, Written(tempFile, code));
    fs.WriteFile(tempFile, code);
    done := done + [Written(tempFile, code)];
    var outputDir := Dirname(outputPath);
    ApplySnoc(s0, done, DirCreated(outputDir));
    fs.EnsureDir(outputDir);
    done := done + [DirCreated(outputDir)];
    var carbonCommand := CarbonCommand(tempFile, outputPath);
    var result := carbon(carbonCommand, code);
    ghost var saved: seq<Effect> := [];
    if result.Some? {
      var savedAt := Join(outputDir, SaveAs(outputPath) + ".png");
      assert savedAt == SavedAt(outputPath);
      ApplySnoc(s0, done, Written(savedAt, result.value));
      fs.WriteFile(savedAt, result.value);
      saved := [Written(savedAt, result.value)];
    } else {
      assert done + saved == done;
    }
    ghost var head := done;
    done := done + saved;
    ApplySnoc(s0, done, Removed(tempFile));
    fs.RemoveFile(tempFile);
    done := done + [Removed(tempFile)];
    assert head == [Written(tempFile, ""), Written(tempFile, code), DirCreated(outputDir)];
    assert done == head + saved + [Removed(tempFile)];
    assert done == CarbonImageEffects(code, language, outputPath, tempBase, carbon);
    ok := result.Some?;
  }

  /** One step of the image loop. */
  lemma CarbonImagesFromStep(blocks: seq<CodeBlock>, i: nat, outputDir: string, temps: TempNames, carbon: Carbon)
    requires i < |blocks|
    ensures CarbonImagesFrom(blocks, i, outputDir, temps, carbon) ==
      if !GetsImage(blocks[i]) then CarbonImagesFrom(blocks, i + 1, outputDir, temps, carbon)
      else CarbonImageEffects(blocks[i].code, blocks[i].language, Join(outputDir, ImageName(i)), temps(i), carbon)
           + CarbonImagesFrom(blocks, i + 1, outputDir, temps, carbon)
  {
  }

  /** One pass of `processMarkdownFile`'s loop: block `i` is imaged when it is a Scala block. */
  method ImageBlock(codeBlocks: seq<CodeBlock>, i: nat, outputDir: string, temps: TempNames, carbon: Carbon, fs: FileSystem)
    requires i < |codeBlocks|
    modifies fs
    ensures Apply(fs.Snapshot(), CarbonImagesFrom(codeBlocks, i + 1, outputDir, temps, carbon))
      == Apply(old(fs.Snapshot()), CarbonImagesFrom(codeBlocks, i, outputDir, temps, carbon))
  {
    var block := codeBlocks[i];
    CarbonImagesFromStep(codeBlocks, i, outputDir, temps, carbon);
    if Lower(block.language) == "scala" {
      var outputPath := Join(outputDir, ImageName(i));
      ghost var here := CarbonImageEffects(block.code, block.language, outputPath, temps(i), carbon);
      ghost var rest := CarbonImagesFrom(codeBlocks, i + 1, outputDir, temps, carbon);
      var _ := GenerateCarbonImage(block.code, block.language, outputPath, temps(i), carbon, fs);
      ApplyAppend(old(fs.Snapshot()), here, rest);
    }
  }

  /** The effects of a file with blocks: its image directory first, then the images. */
  lemma CarbonFileEffectsStart(doc: Document, temps: TempNames, carbon: Carbon, s: State)
    requires |doc.fences| > 0
    ensures Apply(s, CarbonFileEffects(doc, temps, carbon))
            == Apply(Step(s, DirCreated(ImageDir(doc.path))), CarbonImagesFrom(RecordedBlocks(doc.fences), 0, ImageDir(doc.path), temps, carbon))
  {
    var rest := CarbonImagesFrom(RecordedBlocks(doc.fences), 0, ImageDir(doc.path), temps, carbon);
    assert ([DirCreated(ImageDir(doc.path))] + rest)[1..] == rest;
  }

  /** `processMarkdownFile` */
  method ProcessMarkdownFile(doc: Document, temps: TempNames, carbon: Carbon, fs: FileSystem)
    modifies fs
    ensures fs.Snapshot() == Apply(old(fs.Snapshot()), CarbonFileEffects(doc, temps, carbon))
  {
    var codeBlocks := RecordCodeBlocks(doc.fences);
    if |codeBlocks| == 0 {
      return;
    }
    ghost var start := fs.Snapshot();
    var outputDir := ImageDir(doc.path);
    fs.EnsureDir(outputDir);
    ghost var mid := fs.Snapshot();
    assert mid == Step(start, DirCreated(outputDir));
    CarbonFileEffectsStart(doc, temps, carbon, start);
    ImageLoop(codeBlocks, outputDir, temps, carbon, fs);
    assert fs.Snapshot() == Apply(mid, CarbonImagesFrom(RecordedBlocks(doc.fences), 0, outputDir, temps, carbon));
  }

  /** The `for` loop of `processMarkdownFile` over the blocks; a failed block does not stop it. */
  method ImageLoop(codeBlocks: seq<CodeBlock>, outputDir: string, temps: TempNames, carbon: Carbon, fs: FileSystem)
    modifies fs
    ensures fs.Snapshot() == Apply(old(fs.Snapshot()), CarbonImagesFrom(codeBlocks, 0, outputDir, temps, carbon))
  {
    ghost var target := Apply(fs.Snapshot(), CarbonImagesFrom(codeBlocks, 0, outputDir, temps, carbon));
    var i := 0;
    while i < |codeBlocks|
      invariant 0 <= i <= |codeBlocks|
      invariant Apply(fs.Snapshot(), CarbonImagesFrom(codeBlocks, i, outputDir, temps, carbon)) == target
    {
      ImageBlock(codeBlocks, i, outputDir, temps, carbon, fs);
      i := i + 1;
    }
    assert CarbonImagesFrom(codeBlocks, i, outputDir, temps, carbon) == [];
    assert Apply(fs.Snapshot(), []) == fs.Snapshot();
  }

  /** The effects of processing a list of files in order. */
  function CarbonFilesEffects(docs: seq<Document>, temps: TempNames, carbon: Carbon): seq<Effect>
    decreases |docs|
  {
    if docs == [] then [] else CarbonFilesEffects(docs[..|docs| - 1], temps, carbon) + CarbonFileEffects(docs[|docs| - 1], temps, carbon)
  }

  /** The effects of processing the directories in order. */
  function CarbonDirectoriesEffects(dirs: seq<string>, tree: DirectoryTree, temps: TempNames, carbon: Carbon): seq<Effect>
    decreases |dirs|
  {
    if dirs == [] then []
    else CarbonDirectoriesEffects(dirs[..|dirs| - 1], tree, temps, carbon) + CarbonFilesEffects(Found(tree, dirs[|dirs| - 1]), temps, carbon)
  }

  /** Processing one more file of the list. */
  lemma CarbonFilesStep(s: State, files: seq<Document>, j: nat, temps: TempNames, carbon: Carbon)
    requires j < |files|
    ensures Apply(s, CarbonFilesEffects(files[..j + 1], temps, carbon))
            == Apply(Apply(s, CarbonFilesEffects(files[..j], temps, carbon)), CarbonFileEffects(files[j], temps, carbon))
  {
    assert files[..j + 1][..j] == files[..j];
    ApplyAppend(s, CarbonFilesEffects(files[..j], temps, carbon), CarbonFileEffects(files[j], temps, carbon));
  }

  /** Processing one more directory of the list. */
  lemma CarbonDirectoriesStep(s: State, dirs: seq<string>, i: nat, tree: DirectoryTree, temps: TempNames, carbon: Carbon)
    requires i < |dirs|
    ensures Apply(s, CarbonDirectoriesEffects(dirs[..i + 1], tree, temps, carbon))
            == Apply(Apply(s, CarbonDirectoriesEffects(dirs[..i], tree, temps, carbon)), CarbonFilesEffects(Found(tree, dirs[i]), temps, carbon))
  {
    assert dirs[..i + 1][..i] == dirs[..i];
    ApplyAppend(s, CarbonDirectoriesEffects(dirs[..i], tree, temps, carbon), CarbonFilesEffects(Found(tree, dirs[i]), temps, carbon));
  }

  /** `processMarkdownFiles` */
  method ProcessMarkdownFiles(files: seq<Document>, temps: TempNames, carbon: Carbon, fs: FileSystem)
    modifies fs
    ensures fs.Snapshot() == Apply(old(fs.Snapshot()), CarbonFilesEffects(files, temps, carbon))
  {
    ghost var start := fs.Snapshot();
    var j := 0;
    while j < |files|
      invariant 0 <= j <= |files|
      invariant fs.Snapshot() == Apply(start, CarbonFilesEffects(files[..j], temps, carbon))
    {
      CarbonFilesStep(start, files, j, temps, carbon);
      ProcessMarkdownFile(files[j], temps, carbon, fs);
      j := j + 1;
    }
    assert files[..j] == files;
  }

  /** `main` */
  method Run(args: seq<string>, tree: DirectoryTree, temps: TempNames, carbon: Carbon, fs: FileSystem)
    modifies fs
    ensures fs.Snapshot() == Apply(old(fs.Snapshot()), CarbonDirectoriesEffects(Directories(args), tree, temps, carbon))
  {
    ghost var start := fs.Snapshot();
    var directories := Directories(args);
    var i := 0;
    while i < |directories|
      invariant 0 <= i <= |directories|
      invariant fs.Snapshot() == Apply(start, CarbonDirectoriesEffects(directories[..i], tree, temps, carbon))
    {
      CarbonDirectoriesStep(start, directories, i, tree, temps, carbon);
      ProcessMarkdownFiles(Found(tree, directories[i]), temps, carbon, fs);
      i := i + 1;
    }
    assert directories[..i] == directories;
  }

  // ----- properties -----

  /** `carbon-now` saves the image exactly where the converter wants it: `--save-to` and
      `--save-as` put back together give `images/<name>/code-<i>.png`. */
  lemma SavedAtIsImagePath(filePath: string, i: nat)
    requires Basename(filePath) != ""
    ensures SavedAt(ImagePath(filePath, i)) == ImagePath(filePath, i)
  {
    var dir, name := ImageDir(filePath), ImageName(i);
    ImageDirShape(filePath);
    ImageNamesDiffer(i, i + 1);
    var out := Join(dir, name);
    DirnameOfJoin(dir, name);
    BasenameOfJoin(dir, name);
    assert out == dir + "/" + name;
    assert out != ".png";
    assert SaveAs(out) + ".png" == name;
  }

  /** The saved image ends in `.png`. */
  lemma SavedAtIsPng(outputPath: string)
    ensures EndsWith(SavedAt(outputPath), ".png")
  {
    var name := SaveAs(outputPath) + ".png";
    AppendParts(SaveAs(outputPath), ".png", "");
    assert SaveAs(outputPath) + ".png" + "" == name;
    EndsWithTransitive(SavedAt(outputPath), name, ".png");
  }

  /** The temporary file of a Scala block ends with its `.scala` postfix, written in the block's
      own case, so its last character is `a` or `A` and it never ends in `.png`. */
  lemma TempFileOfScalaBlock(tempBase: string, language: string)
    requires Lower(language) == "scala"
    ensures TempFile(tempBase, language) != ""
    ensures EndsWith(TempFile(tempBase, language), "." + language)
    ensures var t := TempFile(tempBase, language); t[|t| - 1] == 'a' || t[|t| - 1] == 'A'
    ensures !EndsWith(TempFile(tempBase, language), ".png")
  {
    AppendParts(tempBase, "." + language, "");
    var t := TempFile(tempBase, language);
    assert |language| == 5;
    assert LowerChar(language[4]) == Lower(language)[4] == 'a';
    assert t[|t| - 1] == language[4];
  }

  /** The temporary file is gone once `generateCarbonImage` returns, whether the tool succeeded or
      not. */
  lemma TempFileRemoved(s: State, code: string, language: string, outputPath: string, tempBase: string, carbon: Carbon)
    ensures TempFile(tempBase, language) !in Apply(s, CarbonImageEffects(code, language, outputPath, tempBase, carbon)).files
  {
    var es := CarbonImageEffects(code, language, outputPath, tempBase, carbon);
    var temp := TempFile(tempBase, language);
    assert es == es[..|es| - 1] + [Removed(temp)] + [];
    ApplyLastRemove(s, es[..|es| - 1], temp, []);
  }

  /** When the tool succeeds on a Scala block, the image holds what it produced. */
  lemma SavedImageContent(s: State, code: string, language: string, outputPath: string, tempBase: string, carbon: Carbon)
    requires Lower(language) == "scala"
    requires carbon(CarbonCommand(TempFile(tempBase, language), outputPath), code).Some?
    ensures SavedAt(outputPath) in Apply(s, CarbonImageEffects(code, language, outputPath, tempBase, carbon)).files
    ensures Apply(s, CarbonImageEffects(code, language, outputPath, tempBase, carbon)).files[SavedAt(outputPath)]
      == carbon(CarbonCommand(TempFile(tempBase, language), outputPath), code).value
  {
    var temp := TempFile(tempBase, language);
    var png := carbon(CarbonCommand(temp, outputPath), code).value;
    var saved := SavedAt(outputPath);
    TempFileOfScalaBlock(tempBase, language);
    SavedAtIsPng(outputPath);
    assert saved != temp;
    var before := [Written(temp, ""), Written(temp, code), DirCreated(Dirname(outputPath))];
    assert CarbonImageEffects(code, language, outputPath, tempBase, carbon) == before + [Written(saved, png)] + [Removed(temp)];
    ApplyLastWrite(s, before, saved, png, [Removed(temp)]);
  }

  /** The effects of one image, position by position. */
  lemma CarbonImageEffectsShape(code: string, language: string, outputPath: string, tempBase: string, carbon: Carbon)
    ensures var es := CarbonImageEffects(code, language, outputPath, tempBase, carbon);
      var temp := TempFile(tempBase, language);
      var result := carbon(CarbonCommand(temp, outputPath), code);
      && |es| == (if result.Some? then 5 else 4)
      && es[0] == Written(temp, "") && es[1] == Written(temp, code) && es[2] == DirCreated(Dirname(outputPath))
      && es[|es| - 1] == Removed(temp)
      && (result.Some? ==> es[3] == Written(SavedAt(outputPath), result.value))
  {
  }

  /** One image touches only its temporary file and its saved image. */
  lemma CarbonImageUntouched(code: string, language: string, outputPath: string, tempBase: string, carbon: Carbon, p: string)
    requires p != TempFile(tempBase, language) && p != SavedAt(outputPath)
    ensures var es := CarbonImageEffects(code, language, outputPath, tempBase, carbon);
      forall k :: 0 <= k < |es| ==> !Touches(es[k], p)
  {
    var temp := TempFile(tempBase, language);
    var result := carbon(CarbonCommand(temp, outputPath), code);
    var saved := if result.Some? then [Written(SavedAt(outputPath), result.value)] else [];
    assert CarbonImageEffects(code, language, outputPath, tempBase, carbon)
      == [Written(temp, ""), Written(temp, code), DirCreated(Dirname(outputPath))] + saved + [Removed(temp)];
    PiecesUntouched(temp, code, Dirname(outputPath), saved, p);
  }

  /** The effects of one image, as pieces: only the temporary file and what is saved are touched. */
  lemma PiecesUntouched(temp: string, code: string, dir: string, saved: seq<Effect>, p: string)
    requires p != temp
    requires forall i :: 0 <= i < |saved| ==> !Touches(saved[i], p)
    ensures var es := [Written(temp, ""), Written(temp, code), DirCreated(dir)] + saved + [Removed(temp)];
      forall k :: 0 <= k < |es| ==> !Touches(es[k], p)
  {
    var head := [Written(temp, ""), Written(temp, code), DirCreated(dir)];
    UntouchedAppend(head, saved, p);
    UntouchedAppend(head + saved, [Removed(temp)], p);
  }

  /** What the tool produces for block `i`. */
  function ToolResult(blocks: seq<CodeBlock>, i: nat, outputDir: string, temps: TempNames, carbon: Carbon): Option<string>
    requires i < |blocks|
  {
    carbon(CarbonCommand(TempFile(temps(i), blocks[i].language), Join(outputDir, ImageName(i))), blocks[i].code)
  }

  /** The loop from `j` on performs everything the loop from `j + 1` on does. */
  lemma CarbonImagesFromKeepsLater(blocks: seq<CodeBlock>, j: nat, outputDir: string, temps: TempNames, carbon: Carbon, e: Effect)
    requires j < |blocks| && e in CarbonImagesFrom(blocks, j + 1, outputDir, temps, carbon)
    ensures e in CarbonImagesFrom(blocks, j, outputDir, temps, carbon)
  {
    CarbonImagesFromStep(blocks, j, outputDir, temps, carbon);
    if GetsImage(blocks[j]) {
      InAppend(CarbonImageEffects(blocks[j].code, blocks[j].language, Join(outputDir, ImageName(j)), temps(j), carbon),
               CarbonImagesFrom(blocks, j + 1, outputDir, temps, carbon), e);
    }
  }

  /** A successful Scala block `j` is saved by the loop from `j` on. */
  lemma CarbonImagesFromSavesFirst(blocks: seq<CodeBlock>, j: nat, outputDir: string, temps: TempNames, carbon: Carbon)
    requires j < |blocks| && GetsImage(blocks[j]) && ToolResult(blocks, j, outputDir, temps, carbon).Some?
    ensures Written(SavedAt(Join(outputDir, ImageName(j))), ToolResult(blocks, j, outputDir, temps, carbon).value)
            in CarbonImagesFrom(blocks, j, outputDir, temps, carbon)
  {
    CarbonImagesFromStep(blocks, j, outputDir, temps, carbon);
    var here := CarbonImageEffects(blocks[j].code, blocks[j].language, Join(outputDir, ImageName(j)), temps(j), carbon);
    CarbonImageEffectsShape(blocks[j].code, blocks[j].language, Join(outputDir, ImageName(j)), temps(j), carbon);
    InAppend(here, CarbonImagesFrom(blocks, j + 1, outputDir, temps, carbon), here[3]);
  }

  /** A failing block does not stop the loop: every later Scala block the tool succeeds on is still
      saved. */
  lemma {:induction false} EveryImageSaved(blocks: seq<CodeBlock>, j: nat, outputDir: string, temps: TempNames, carbon: Carbon, i: nat)
    requires j <= i < |blocks| && GetsImage(blocks[i]) && ToolResult(blocks, i, outputDir, temps, carbon).Some?
    ensures Written(SavedAt(Join(outputDir, ImageName(i))), ToolResult(blocks, i, outputDir, temps, carbon).value)
            in CarbonImagesFrom(blocks, j, outputDir, temps, carbon)
    decreases |blocks| - j
  {
    if i == j {
      CarbonImagesFromSavesFirst(blocks, j, outputDir, temps, carbon);
    } else {
      EveryImageSaved(blocks, j + 1, outputDir, temps, carbon, i);
      CarbonImagesFromKeepsLater(blocks, j, outputDir, temps, carbon,
        Written(SavedAt(Join(outputDir, ImageName(i))), ToolResult(blocks, i, outputDir, temps, carbon).value));
    }
  }

  /** Whether `p` is the temporary file of a Scala block from `j` on. */
  predicate IsTempOf(p: string, blocks: seq<CodeBlock>, j: nat, temps: TempNames)
  {
    exists i :: j <= i < |blocks| && GetsImage(blocks[i]) && p == TempFile(temps(i), blocks[i].language)
  }

  /** The loop touches only images and temporary files. */
  lemma {:induction false} CarbonUntouched(blocks: seq<CodeBlock>, j: nat, outputDir: string, temps: TempNames, carbon: Carbon, p: string)
    requires !EndsWith(p, ".png") && !IsTempOf(p, blocks, j, temps)
    ensures forall k :: 0 <= k < |CarbonImagesFrom(blocks, j, outputDir, temps, carbon)| ==> !Touches(CarbonImagesFrom(blocks, j, outputDir, temps, carbon)[k], p)
    decreases |blocks| - j
  {
    if j < |blocks| {
      CarbonImagesFromStep(blocks, j, outputDir, temps, carbon);
      assert !IsTempOf(p, blocks, j + 1, temps);
      CarbonUntouched(blocks, j + 1, outputDir, temps, carbon, p);
      var rest := CarbonImagesFrom(blocks, j + 1, outputDir, temps, carbon);
      if GetsImage(blocks[j]) {
        var out := Join(outputDir, ImageName(j));
        assert p != TempFile(temps(j), blocks[j].language);
        SavedAtIsPng(out);
        CarbonImageUntouched(blocks[j].code, blocks[j].language, out, temps(j), carbon, p);
        UntouchedAppend(CarbonImageEffects(blocks[j].code, blocks[j].language, out, temps(j), carbon), rest, p);
      }
    }
  }

  /** No temporary file survives the loop, even when two blocks are given the same temporary name. */
  lemma {:induction false} TempFilesCleanedUp(s: State, blocks: seq<CodeBlock>, j: nat, outputDir: string, temps: TempNames, carbon: Carbon, p: string)
    requires IsTempOf(p, blocks, j, temps)
    ensures p !in Apply(s, CarbonImagesFrom(blocks, j, outputDir, temps, carbon)).files
    decreases |blocks| - j
  {
    var i :| j <= i < |blocks| && GetsImage(blocks[i]) && p == TempFile(temps(i), blocks[i].language);
    CarbonImagesFromStep(blocks, j, outputDir, temps, carbon);
    var rest := CarbonImagesFrom(blocks, j + 1, outputDir, temps, carbon);
    if !GetsImage(blocks[j]) {
      assert i != j;
      TempFilesCleanedUp(s, blocks, j + 1, outputDir, temps, carbon, p);
    } else {
      var here := CarbonImageEffects(blocks[j].code, blocks[j].language, Join(outputDir, ImageName(j)), temps(j), carbon);
      ApplyAppend(s, here, rest);
      if IsTempOf(p, blocks, j + 1, temps) {
        TempFilesCleanedUp(Apply(s, here), blocks, j + 1, outputDir, temps, carbon, p);
      } else {
        assert i == j;
        TempFileRemoved(s, blocks[j].code, blocks[j].language, Join(outputDir, ImageName(j)), temps(j), carbon);
        TempFileOfScalaBlock(temps(j), blocks[j].language);
        CarbonUntouched(blocks, j + 1, outputDir, temps, carbon, p);
        ApplyUntouched(Apply(s, here), rest, p);
      }
    }
  }

  /** `p` is neither the temporary file nor the saved image of a Scala block from `j` on. */
  predicate Avoided(p: string, blocks: seq<CodeBlock>, j: nat, outputDir: string, temps: TempNames)
  {
    forall k :: j <= k < |blocks| && GetsImage(blocks[k]) ==>
      p != TempFile(temps(k), blocks[k].language) && p != SavedAt(Join(outputDir, ImageName(k)))
  }

  /** The loop from `j` on touches only the temporary files and saved images of its blocks. */
  lemma {:induction false} AvoidedUntouched(blocks: seq<CodeBlock>, j: nat, outputDir: string, temps: TempNames, carbon: Carbon, p: string)
    requires Avoided(p, blocks, j, outputDir, temps)
    ensures var later := CarbonImagesFrom(blocks, j, outputDir, temps, carbon);
      forall k :: 0 <= k < |later| ==> !Touches(later[k], p)
    decreases |blocks| - j
  {
    if j < |blocks| {
      CarbonImagesFromStep(blocks, j, outputDir, temps, carbon);
      AvoidedUntouched(blocks, j + 1, outputDir, temps, carbon, p);
      if GetsImage(blocks[j]) {
        var out := Join(outputDir, ImageName(j));
        CarbonImageUntouched(blocks[j].code, blocks[j].language, out, temps(j), carbon, p);
        UntouchedAppend(CarbonImageEffects(blocks[j].code, blocks[j].language, out, temps(j), carbon),
                        CarbonImagesFrom(blocks, j + 1, outputDir, temps, carbon), p);
      }
    }
  }

  /** The image of block `i` is neither the temporary file nor the saved image of another Scala
      block `k`. */
  lemma ImageAvoided(filePath: string, i: nat, k: nat, tempBase: string, language: string)
    requires Basename(filePath) != "" && i != k && Lower(language) == "scala"
    ensures ImagePath(filePath, i) != TempFile(tempBase, language)
    ensures ImagePath(filePath, i) != SavedAt(ImagePath(filePath, k))
  {
    var p := ImagePath(filePath, i);
    TempFileOfScalaBlock(tempBase, language);
    SavedAtIsImagePath(filePath, i);
    SavedAtIsPng(p);
    SavedAtIsImagePath(filePath, k);
    ImagePathsDiffer(filePath, i, k);
  }

  /** The loop from `j` on leaves alone the image of an earlier block `i`: later blocks write
      their own images and temporary files only. */
  lemma LaterImagesUntouched(blocks: seq<CodeBlock>, j: nat, filePath: string, temps: TempNames, carbon: Carbon, i: nat)
    requires Basename(filePath) != "" && i < j
    ensures var later := CarbonImagesFrom(blocks, j, ImageDir(filePath), temps, carbon);
      forall k :: 0 <= k < |later| ==> !Touches(later[k], ImagePath(filePath, i))
  {
    var dir, p := ImageDir(filePath), ImagePath(filePath, i);
    forall k | j <= k < |blocks| && GetsImage(blocks[k])
      ensures p != TempFile(temps(k), blocks[k].language) && p != SavedAt(Join(dir, ImageName(k)))
    {
      ImageAvoided(filePath, i, k, temps(k), blocks[k].language);
    }
    AvoidedUntouched(blocks, j, dir, temps, carbon, p);
  }

  /** After the loop from `j` on, a Scala block `i` the tool succeeds on has its image, holding
      what the tool produced. */
  lemma {:induction false} ImageSurvives(s: State, blocks: seq<CodeBlock>, j: nat, filePath: string, temps: TempNames, carbon: Carbon, i: nat)
    requires Basename(filePath) != ""
    requires j <= i < |blocks| && GetsImage(blocks[i]) && ToolResult(blocks, i, ImageDir(filePath), temps, carbon).Some?
    ensures var after := Apply(s, CarbonImagesFrom(blocks, j, ImageDir(filePath), temps, carbon));
      ImagePath(filePath, i) in after.files
      && after.files[ImagePath(filePath, i)] == ToolResult(blocks, i, ImageDir(filePath), temps, carbon).value
    decreases i - j
  {
    var dir := ImageDir(filePath);
    CarbonImagesFromStep(blocks, j, dir, temps, carbon);
    var out := Join(dir, ImageName(j));
    var here := CarbonImageEffects(blocks[j].code, blocks[j].language, out, temps(j), carbon);
    var rest := CarbonImagesFrom(blocks, j + 1, dir, temps, carbon);
    if j == i {
      ApplyAppend(s, here, rest);
      SavedImageContent(s, blocks[j].code, blocks[j].language, out, temps(j), carbon);
      SavedAtIsImagePath(filePath, i);
      LaterImagesUntouched(blocks, i + 1, filePath, temps, carbon, i);
      ApplyUntouched(Apply(s, here), rest, ImagePath(filePath, i));
    } else if GetsImage(blocks[j]) {
      ApplyAppend(s, here, rest);
      ImageSurvives(Apply(s, here), blocks, j + 1, filePath, temps, carbon, i);
    } else {
      ImageSurvives(s, blocks, j + 1, filePath, temps, carbon, i);
    }
  }

  /** Every Scala block of a file that the tool succeeds on ends up as `images/<name>/code-<i>.png`,
      whatever happened to the blocks before it, and keeps what the tool produced to the end of
      the file: no later block overwrites or removes it. */
  lemma FileImagesSaved(s: State, doc: Document, temps: TempNames, carbon: Carbon, i: nat)
    requires Basename(doc.path) != ""
    requires i < |doc.fences| && GetsImage(Recorded(doc.fences[i]))
    requires ToolResult(RecordedBlocks(doc.fences), i, ImageDir(doc.path), temps, carbon).Some?
    ensures Written(ImagePath(doc.path, i), ToolResult(RecordedBlocks(doc.fences), i, ImageDir(doc.path), temps, carbon).value)
            in CarbonFileEffects(doc, temps, carbon)
    ensures var after := Apply(s, CarbonFileEffects(doc, temps, carbon));
      ImagePath(doc.path, i) in after.files
      && after.files[ImagePath(doc.path, i)] == ToolResult(RecordedBlocks(doc.fences), i, ImageDir(doc.path), temps, carbon).value
  {
    var blocks := RecordedBlocks(doc.fences);
    var dir := ImageDir(doc.path);
    var images := CarbonImagesFrom(blocks, 0, dir, temps, carbon);
    EveryImageSaved(blocks, 0, dir, temps, carbon, i);
    SavedAtIsImagePath(doc.path, i);
    InAppend([DirCreated(dir)], images, Written(ImagePath(doc.path, i), ToolResult(blocks, i, dir, temps, carbon).value));
    assert CarbonFileEffects(doc, temps, carbon) == [DirCreated(dir)] + images;
    ApplyAppend(s, [DirCreated(dir)], images);
    ImageSurvives(Apply(s, [DirCreated(dir)]), blocks, 0, doc.path, temps, carbon, i);
  }
}
