/** The Scala code-example extractor: it keeps the fenced blocks tagged `scala` of every Markdown
    file under the searched directories and writes each to its own `.scala` file, named after
    the first class, object or trait the block declares, or else after the document and the
    block's position. */
module ExtractCodeExamples {
  import opened Wrappers
  import opened Text
  import opened Seqs
  import opened Paths
  import opened Disk
  import opened Markdown

  /** The roots searched, in this order. */
  const DirsToSearch: seq<string> := ["blog", "book/src"]
  /** Where the extracted code goes. */
  const OutputDir: string := "code/src/main/scala/extracted"

  // ----- the language filter -----

  /** Only a fence whose language is exactly `scala` (case-sensitive) is kept. */
  predicate IsScalaFence(f: Fence)
  {
    f.info == Some("scala")
  }

  /** The blocks the renderer hook keeps. */
  function ScalaBlocks(fences: seq<Fence>): seq<CodeBlock>
  {
    var kept := Filter(IsScalaFence, fences);
    seq(|kept|, k requires 0 <= k < |kept| => CodeBlock("scala", kept[k].code))
  }

  /** `extractCodeBlocks`: the renderer hook pushes a block for every `scala` fence. */
  method ExtractCodeBlocks(fences: seq<Fence>) returns (blocks: seq<CodeBlock>)
    ensures blocks == ScalaBlocks(fences)
  {
    blocks := [];
    var i := 0;
    while i < |fences|
      invariant 0 <= i <= |fences|
      invariant blocks == ScalaBlocks(fences[..i])
    {
      FilterAppend(IsScalaFence, fences[..i], [fences[i]]);
      assert fences[..i + 1] == fences[..i] + [fences[i]];
      if fences[i].info == Some("scala") {
        blocks := blocks + [CodeBlock("scala", fences[i].code)];
      }
      i := i + 1;
    }
    assert fences[..|fences|] == fences;
  }

  /** The kept blocks are exactly the `scala` fences, in document order: block k is the fence at
      the k-th `scala` position, positions increase, and every `scala` fence has one. */
  lemma ScalaBlocksInDocumentOrder(fences: seq<Fence>)
    ensures var pos := Positions(IsScalaFence, fences, 0);
            && |ScalaBlocks(fences)| == |pos|
            && StrictlyIncreasing(pos)
            && (forall k :: 0 <= k < |pos| ==> pos[k] < |fences| && ScalaBlocks(fences)[k] == CodeBlock("scala", fences[pos[k]].code))
            && (forall i :: 0 <= i < |fences| ==> (i in pos <==> fences[i].info == Some("scala")))
  {
    FilterAtPositions(IsScalaFence, fences, 0);
    PositionsIncrease(IsScalaFence, fences, 0);
    PositionsExact(IsScalaFence, fences, 0);
  }

  // ----- the base-name sanitiser -----

  /** `.replace(/[^a-zA-Z0-9]/g, '_')` */
  function ReplaceNonAlnum(s: string): (r: string)
    ensures |r| == |s|
    ensures forall i :: 0 <= i < |s| ==> r[i] == if IsAsciiAlnum(s[i]) then s[i] else '_'
  {
    seq(|s|, i requires 0 <= i < |s| => if IsAsciiAlnum(s[i]) then s[i] else '_')
  }

  /** `s` without its leading run of underscores. */
  function SkipUnderscores(s: string): (r: string)
    ensures |r| <= |s| && s[|s| - |r|..] == r
    ensures r == [] || r[0] != '_'
    ensures forall i :: 0 <= i < |s| - |r| ==> s[i] == '_'
    decreases |s|
  {
    if s != [] && s[0] == '_' then SkipUnderscores(s[1..]) else s
  }

  /** No two adjacent underscores. */
  predicate NoDoubleUnderscore(s: string)
  {
    forall i :: 0 <= i < |s| - 1 ==> !(s[i] == '_' && s[i + 1] == '_')
  }

  /** `.replace(/_+/g, '_')`: every run of underscores becomes one. */
  function CollapseUnderscores(s: string): (r: string)
    ensures |r| <= |s|
    ensures forall c :: c in r ==> c in s
    ensures r == [] <==> s == []
    ensures r != [] ==> (r[0] == '_' <==> s[0] == '_')
    ensures NoDoubleUnderscore(r)
    decreases |s|
  {
    if s == [] then []
    else if s[0] == '_' then
      var rest := SkipUnderscores(s);
      assert forall c :: c in rest ==> c in s by {
        forall c | c in rest ensures c in s {
          var j :| 0 <= j < |rest| && rest[j] == c;
          assert s[|s| - |rest| + j] == c;
        }
      }
      "_" + CollapseUnderscores(rest)
    else
      [s[0]] + CollapseUnderscores(s[1..])
  }

  /** The base name of a Markdown path with `.md` removed, made safe for a file name. */
  function SanitizedBaseName(filePath: string): string
  {
    Sanitize(BasenameWithout(filePath, ".md"))
  }

  /** The two replacements of the sanitiser, in order. */
  function Sanitize(s: string): string
  {
    CollapseUnderscores(ReplaceNonAlnum(s))
  }

  /** A sanitised name holds only `[A-Za-z0-9_]` and never two underscores in a row. */
  lemma SanitizedCharacters(s: string)
    ensures forall c :: c in Sanitize(s) ==> IsWordChar(c)
    ensures NoDoubleUnderscore(Sanitize(s))
  {
    var t := ReplaceNonAlnum(s);
    forall c | c in t ensures IsWordChar(c) {
      var i :| 0 <= i < |t| && t[i] == c;
    }
  }

  /** A sanitised name is never longer than what it was made from. */
  lemma SanitizeNeverLengthens(s: string)
    ensures |Sanitize(s)| <= |s|
  {
  }

  /** Collapsing changes nothing in a string that has no two adjacent underscores. */
  lemma {:induction false} CollapseFixesSingles(s: string)
    requires NoDoubleUnderscore(s)
    ensures CollapseUnderscores(s) == s
    decreases |s|
  {
    if s != [] {
      assert NoDoubleUnderscore(s[1..]) by {
        forall i | 0 <= i < |s[1..]| - 1 ensures !(s[1..][i] == '_' && s[1..][i + 1] == '_') {
          assert s[1..][i] == s[i + 1] && s[1..][i + 1] == s[i + 2];
        }
      }
      if s[0] == '_' {
        assert |s| > 1 ==> s[1] != '_';
        assert SkipUnderscores(s) == s[1..];
      }
      CollapseFixesSingles(s[1..]);
    }
  }

  /** Sanitising a sanitised name gives it back unchanged. */
  lemma SanitizeIdempotent(s: string)
    ensures Sanitize(Sanitize(s)) == Sanitize(s)
  {
    var t := Sanitize(s);
    SanitizedCharacters(s);
    assert ReplaceNonAlnum(t) == t by {
      forall i | 0 <= i < |t| ensures ReplaceNonAlnum(t)[i] == t[i] {
        assert t[i] in t;
      }
    }
    CollapseFixesSingles(t);
  }

  /** The letters and digits survive sanitising, in order: only separators change. */
  lemma {:induction false} CollapseKeepsAlnum(s: string)
    ensures Filter(IsAsciiAlnum, CollapseUnderscores(s)) == Filter(IsAsciiAlnum, s)
    decreases |s|
  {
    if s != [] {
      if s[0] == '_' {
        var rest := SkipUnderscores(s);
        var n := |s| - |rest|;
        assert s == s[..n] + rest;
        FilterAppend(IsAsciiAlnum, s[..n], rest);
        UnderscoresFilterEmpty(s[..n]);
        CollapseKeepsAlnum(rest);
        FilterAppend(IsAsciiAlnum, "_", CollapseUnderscores(rest));
      } else {
        assert s == [s[0]] + s[1..];
        FilterAppend(IsAsciiAlnum, [s[0]], s[1..]);
        CollapseKeepsAlnum(s[1..]);
        FilterAppend(IsAsciiAlnum, [s[0]], CollapseUnderscores(s[1..]));
      }
    }
  }

  lemma {:induction false} UnderscoresFilterEmpty(u: string)
    requires forall i :: 0 <= i < |u| ==> u[i] == '_'
    ensures Filter(IsAsciiAlnum, u) == []
    decreases |u|
  {
    if u != [] {
      assert forall i :: 0 <= i < |u| - 1 ==> u[1..][i] == u[i + 1];
      UnderscoresFilterEmpty(u[1..]);
    }
  }

  lemma {:induction false} ReplaceKeepsAlnum(s: string)
    ensures Filter(IsAsciiAlnum, ReplaceNonAlnum(s)) == Filter(IsAsciiAlnum, s)
    decreases |s|
  {
    if s != [] {
      var r := ReplaceNonAlnum(s);
      assert r[1..] == ReplaceNonAlnum(s[1..]);
      ReplaceKeepsAlnum(s[1..]);
      if IsAsciiAlnum(s[0]) {
        assert r[0] == s[0];
      } else {
        assert !IsAsciiAlnum(r[0]);
      }
    }
  }

  lemma SanitizeKeepsAlnum(s: string)
    ensures Filter(IsAsciiAlnum, Sanitize(s)) == Filter(IsAsciiAlnum, s)
  {
    ReplaceKeepsAlnum(s);
    CollapseKeepsAlnum(ReplaceNonAlnum(s));
  }

  /** `.md` is removed from the base name exactly when the base name ends with it (and is more
      than `.md`); the directory part never reaches the name. */
  lemma BaseNameStripsMarkdownSuffix(filePath: string)
    requires filePath != ".md"
    ensures var b := Basename(filePath);
            && (|b| > 3 && EndsWith(b, ".md") ==> BasenameWithout(filePath, ".md") + ".md" == b)
            && (!(|b| > 3 && EndsWith(b, ".md")) ==> BasenameWithout(filePath, ".md") == b)
  {
  }

  // ----- the declaration scan: /\b(class|object|trait)\s+([a-zA-Z][a-zA-Z0-9_]*)/ -----

  /** The first index at or after `j` where `s` does not continue with `\s`. */
  function SkipSpaces(s: string, j: nat): (k: nat)
    requires j <= |s|
    ensures j <= k <= |s|
    ensures forall m :: j <= m < k ==> IsJsSpace(s[m])
    ensures k == |s| || !IsJsSpace(s[k])
    decreases |s| - j
  {
    if j < |s| && IsJsSpace(s[j]) then SkipSpaces(s, j + 1) else j
  }

  /** The first index at or after `j` where `s` does not continue with a word character. */
  function WordEnd(s: string, j: nat): (k: nat)
    requires j <= |s|
    ensures j <= k <= |s|
    ensures forall m :: j <= m < k ==> IsWordChar(s[m])
    ensures k == |s| || !IsWordChar(s[k])
    decreases |s| - j
  {
    if j < |s| && IsWordChar(s[j]) then WordEnd(s, j + 1) else j
  }

  /** `SkipSpaces` stops at the first character that is not whitespace. */
  lemma {:induction false} SkipSpacesLands(s: string, j: nat, k: nat)
    requires j <= k <= |s|
    requires forall m :: j <= m < k ==> IsJsSpace(s[m])
    requires k == |s| || !IsJsSpace(s[k])
    ensures SkipSpaces(s, j) == k
    decreases k - j
  {
    if j < k {
      SkipSpacesLands(s, j + 1, k);
    }
  }

  /** `WordEnd` stops at the first character that is not a word character. */
  lemma {:induction false} WordEndLands(s: string, j: nat, k: nat)
    requires j <= k <= |s|
    requires forall m :: j <= m < k ==> IsWordChar(s[m])
    requires k == |s| || !IsWordChar(s[k])
    ensures WordEnd(s, j) == k
    decreases k - j
  {
    if j < k {
      WordEndLands(s, j + 1, k);
    }
  }

  /** `\b` before a word character at `i`. */
  predicate WordStart(s: string, i: nat)
    requires i <= |s|
  {
    i == 0 || !IsWordChar(s[i - 1])
  }

  /** One of the keywords occurs at `i` and ends at `j`. */
  predicate KeywordAt(s: string, i: int, j: int)
  {
    (OccursAt(s, "class", i) && j == i + 5) ||
    (OccursAt(s, "object", i) && j == i + 6) ||
    (OccursAt(s, "trait", i) && j == i + 5)
  }

  /** `[a-zA-Z][a-zA-Z0-9_]*` */
  predicate IsIdentifier(id: string)
  {
    id != [] && IsAsciiLetter(id[0]) && forall m :: 0 <= m < |id| ==> IsWordChar(id[m])
  }

  /** The pattern matches at `i`: a whole-word keyword ending at `j`, whitespace up to `k`, then the
      identifier `id`, which the next character (if any) does not continue. */
  predicate DeclarationAt(s: string, i: int, j: int, k: int, id: string)
  {
    && 0 <= i <= |s| && WordStart(s, i) && KeywordAt(s, i, j)
    && j < k <= |s| && (forall m :: j <= m < k ==> IsJsSpace(s[m]))
    && OccursAt(s, id, k) && IsIdentifier(id)
    && (k + |id| == |s| || !IsWordChar(s[k + |id|]))
  }

  /** The end of the keyword matching at `i`, if any. */
  function KeywordEnd(s: string, i: nat): (r: Option<nat>)
    ensures r.None? ==> forall j :: !KeywordAt(s, i, j)
    ensures r.Some? ==> KeywordAt(s, i, r.value)
  {
    if OccursAt(s, "class", i) then Some(i + 5)
    else if OccursAt(s, "object", i) then Some(i + 6)
    else if OccursAt(s, "trait", i) then Some(i + 5)
    else None
  }

  /** At most one keyword starts at a given index: their first letters differ. */
  lemma KeywordEndUnique(s: string, i: nat, j: int)
    requires KeywordAt(s, i, j)
    ensures KeywordEnd(s, i) == Some(j)
  {
    if OccursAt(s, "class", i) { assert s[i] == "class"[0]; }
    if OccursAt(s, "object", i) { assert s[i] == "object"[0]; }
    if OccursAt(s, "trait", i) { assert s[i] == "trait"[0]; }
  }

  /** What the regular expression captures when it is tried at index `i`. */
  function MatchAt(s: string, i: nat): Option<string>
    requires i <= |s|
  {
    if !WordStart(s, i) then None
    else match KeywordEnd(s, i)
      case None => None
      case Some(j) =>
        var k := SkipSpaces(s, j);
        if k == j || k == |s| || !IsAsciiLetter(s[k]) then None
        else Some(s[k..WordEnd(s, k)])
  }

  /** What `MatchAt` captures is the identifier of a declaration at `i`. */
  lemma MatchIsDeclaration(s: string, i: nat, id: string)
    requires i <= |s| && MatchAt(s, i) == Some(id)
    ensures DeclarationAt(s, i, KeywordEnd(s, i).value, SkipSpaces(s, KeywordEnd(s, i).value), id)
  {
    var j := KeywordEnd(s, i).value;
    var k := SkipSpaces(s, j);
    var e := WordEnd(s, k);
    assert j < k < |s| && IsAsciiLetter(s[k]) && id == s[k..e];
    DeclarationFromParts(s, i, j, k, e);
  }

  /** A whole-word keyword, whitespace, then a letter and word characters up to a non-word
      character make a declaration. */
  lemma DeclarationFromParts(s: string, i: nat, j: nat, k: nat, e: nat)
    requires i <= |s| && WordStart(s, i) && KeywordAt(s, i, j)
    requires j < k < |s| && (forall m :: j <= m < k ==> IsJsSpace(s[m])) && IsAsciiLetter(s[k])
    requires k < e <= |s| && (forall m :: k <= m < e ==> IsWordChar(s[m])) && (e == |s| || !IsWordChar(s[e]))
    ensures DeclarationAt(s, i, j, k, s[k..e])
  {
    SliceIsIdentifier(s, k, e);
    SliceOccurs(s, k, e);
  }

  lemma SliceOccurs(s: string, k: nat, e: nat)
    requires k <= e <= |s|
    ensures |s[k..e]| == e - k && OccursAt(s, s[k..e], k)
  {
  }

  /** A letter followed by word characters is an identifier. */
  lemma SliceIsIdentifier(s: string, k: nat, e: nat)
    requires k < e <= |s| && IsAsciiLetter(s[k])
    requires forall m :: k <= m < e ==> IsWordChar(s[m])
    ensures IsIdentifier(s[k..e])
  {
    forall m | 0 <= m < e - k ensures IsWordChar(s[k..e][m]) {
      assert s[k..e][m] == s[k + m];
    }
  }

  /** A declaration at `i` is what `MatchAt` captures there. */
  lemma DeclarationMatches(s: string, i: nat, j: int, k: int, id: string)
    requires DeclarationAt(s, i, j, k, id)
    ensures MatchAt(s, i) == Some(id)
  {
    KeywordEndUnique(s, i, j);
    assert s[k] == id[0];
    assert !IsJsSpace(s[k]);
    SkipSpacesLands(s, j, k);
    WordEndLands(s, k, k + |id|);
    assert s[k..WordEnd(s, k)] == id;
  }

  /** `MatchAt` captures exactly the identifier of a declaration at `i`, and fails exactly where there
      is none. */
  lemma MatchAtIsDeclaration(s: string, i: nat, id: string)
    requires i <= |s|
    ensures MatchAt(s, i) == Some(id) <==> exists j, k :: DeclarationAt(s, i, j, k, id)
  {
    if MatchAt(s, i) == Some(id) {
      MatchIsDeclaration(s, i, id);
    }
    if exists j, k :: DeclarationAt(s, i, j, k, id) {
      var j, k :| DeclarationAt(s, i, j, k, id);
      DeclarationMatches(s, i, j, k, id);
    }
  }

  /** The capture of the leftmost match at or after `i`, trying `i`, `i + 1`, ... as the regular
      expression engine does. */
  function FirstMatchFrom(s: string, i: nat): Option<string>
    requires i <= |s|
    decreases |s| - i
  {
    if MatchAt(s, i).Some? then MatchAt(s, i)
    else if i == |s| then None
    else FirstMatchFrom(s, i + 1)
  }

  /** The scan finds the leftmost index where the pattern matches, or reports that there is none. */
  lemma {:induction false} FirstMatchIsLeftmost(s: string, i: nat)
    requires i <= |s|
    ensures FirstMatchFrom(s, i).None? ==> forall q :: i <= q <= |s| ==> MatchAt(s, q).None?
    ensures FirstMatchFrom(s, i).Some? ==>
              exists p :: i <= p <= |s| && MatchAt(s, p) == FirstMatchFrom(s, i) &&
                forall q :: i <= q < p ==> MatchAt(s, q).None?
    decreases |s| - i
  {
    if MatchAt(s, i).None? && i < |s| {
      FirstMatchIsLeftmost(s, i + 1);
      if FirstMatchFrom(s, i).Some? {
        var p :| i + 1 <= p <= |s| && MatchAt(s, p) == FirstMatchFrom(s, i + 1) &&
                 forall q :: i + 1 <= q < p ==> MatchAt(s, q).None?;
        assert forall q :: i <= q < p ==> MatchAt(s, q).None?;
      }
    }
  }

  /** `extractClassName`: the capture of the leftmost match, or `None` (JavaScript's null). */
  function ExtractClassName(code: string): (r: Option<string>)
    ensures r.Some? ==> IsIdentifier(r.value)
  {
    var r := FirstMatchFrom(code, 0);
    if r.Some? then
      FirstMatchIsLeftmost(code, 0);
      var p :| 0 <= p <= |code| && MatchAt(code, p) == r;
      MatchAtIsDeclaration(code, p, r.value);
      r
    else r
  }

  /** The class name is the identifier of the first declaration in the code, and there is none
      exactly when the code declares nothing. */
  lemma ClassNameIsFirstDeclaration(code: string)
    ensures ExtractClassName(code).None? <==> forall p, j, k, id :: !DeclarationAt(code, p, j, k, id)
    ensures ExtractClassName(code).Some? ==>
              exists p, j, k :: DeclarationAt(code, p, j, k, ExtractClassName(code).value) &&
                forall q, j', k', id' :: q < p ==> !DeclarationAt(code, q, j', k', id')
  {
    var r := FirstMatchFrom(code, 0);
    assert ExtractClassName(code) == r;
    FirstMatchIsLeftmost(code, 0);
    if r.None? {
      forall p, j, k, id ensures !DeclarationAt(code, p, j, k, id) {
        if DeclarationAt(code, p, j, k, id) {
          MatchAtIsDeclaration(code, p, id);
        }
      }
    } else {
      var p :| 0 <= p <= |code| && MatchAt(code, p) == r && forall q :: 0 <= q < p ==> MatchAt(code, q).None?;
      MatchAtIsDeclaration(code, p, r.value);
      var j, k :| DeclarationAt(code, p, j, k, r.value);
      forall q, j', k', id' | q < p ensures !DeclarationAt(code, q, j', k', id') {
        if DeclarationAt(code, q, j', k', id') {
          MatchAtIsDeclaration(code, q, id');
        }
      }
    }
  }

  // ----- processFile: one write per kept block -----

  /** `<ClassName>.scala` when the block declares one, else `<base>_<index>.scala`. */
  function OutputFileName(base: string, index: nat, code: string): string
  {
    match ExtractClassName(code)
    case Some(className) => className + ".scala"
    case None => base + "_" + Decimal(index) + ".scala"
  }

  /** The writes `processFile` performs for a document, in order: block k of the kept blocks, with
      k as its fallback index. */
  function FileWrites(doc: Document): seq<Effect>
  {
    var blocks := ScalaBlocks(doc.fences);
    var base := SanitizedBaseName(doc.path);
    seq(|blocks|, k requires 0 <= k < |blocks| =>
      Written(Join(OutputDir, OutputFileName(base, k, blocks[k].code)), blocks[k].code))
  }

  /** The write planned for kept block k. */
  lemma FileWritesAt(doc: Document, k: nat)
    requires k < |ScalaBlocks(doc.fences)|
    ensures |FileWrites(doc)| == |ScalaBlocks(doc.fences)|
    ensures FileWrites(doc)[k] ==
      Written(Join(OutputDir, OutputFileName(SanitizedBaseName(doc.path), k, ScalaBlocks(doc.fences)[k].code)),
              ScalaBlocks(doc.fences)[k].code)
  {
  }

  /** `processFile`: extract the kept blocks and write each, verbatim, to its own file. */
  method ProcessFile(doc: Document, fs: FileSystem)
    modifies fs
    ensures fs.Snapshot() == Apply(old(fs.Snapshot()), FileWrites(doc))
  {
    var blocks := ExtractCodeBlocks(doc.fences);
    var baseName := SanitizedBaseName(doc.path);
    ghost var start := fs.Snapshot();
    ghost var planned := FileWrites(doc);
    var index := 0;
    while index < |blocks|
      invariant 0 <= index <= |blocks| == |planned|
      invariant fs.Snapshot() == Apply(start, planned[..index])
    {
      var block := blocks[index];
      FileWritesAt(doc, index);
      ApplyPrefixStep(start, planned, index);
      if block.language == "scala" {
        var className := ExtractClassName(block.code);
        ghost var name := OutputFileName(baseName, index, block.code);
        if className.Some? {
          assert name == className.value + ".scala";
          fs.WriteFile(Join(OutputDir, className.value + ".scala"), block.code);
        } else {
          assert name == baseName + "_" + Decimal(index) + ".scala";
          fs.WriteFile(Join(OutputDir, baseName + "_" + Decimal(index) + ".scala"), block.code);
        }
        assert fs.Snapshot() == Step(Apply(start, planned[..index]), planned[index]);
      }
      index := index + 1;
    }
    assert planned[..index] == planned;
  }

  /** Every file name `processFile` writes is a plain name (no directory part) ending in `.scala`. */
  lemma OutputFileNameIsPlain(doc: Document, k: nat)
    requires k < |ScalaBlocks(doc.fences)|
    ensures var name := OutputFileName(SanitizedBaseName(doc.path), k, ScalaBlocks(doc.fences)[k].code);
            name != "" && '/' !in name && EndsWith(name, ".scala")
  {
    var base := SanitizedBaseName(doc.path);
    var code := ScalaBlocks(doc.fences)[k].code;
    match ExtractClassName(code)
    case Some(className) =>
      forall c | c in className ensures IsWordChar(c) {
        var m :| 0 <= m < |className| && className[m] == c;
      }
      ScalaFileNameIsPlain(className);
    case None =>
      var digits := Decimal(k);
      SanitizedCharacters(BasenameWithout(doc.path, ".md"));
      forall c | c in digits ensures IsWordChar(c) {
        var m :| 0 <= m < |digits| && digits[m] == c;
        assert IsDigit(digits[m]);
      }
      WordCharsJoined(base, digits);
      ScalaFileNameIsPlain(base + "_" + digits);
  }

  /** A stem of word characters, `_` and digits included, joined by `_`, is still word characters. */
  lemma WordCharsJoined(a: string, b: string)
    requires forall c :: c in a ==> IsWordChar(c)
    requires forall c :: c in b ==> IsWordChar(c)
    ensures forall c :: c in a + "_" + b ==> IsWordChar(c)
  {
  }

  /** A stem of word characters with `.scala` appended is a plain `.scala` file name. */
  lemma ScalaFileNameIsPlain(stem: string)
    requires forall c :: c in stem ==> IsWordChar(c)
    ensures stem + ".scala" != "" && '/' !in stem + ".scala" && EndsWith(stem + ".scala", ".scala")
  {
    assert '/' !in stem;
  }

  /** Every write of `processFile` lands directly in the output directory, as a `.scala` file, and
      carries its block's code verbatim. */
  lemma FileWritesLandInOutputDir(doc: Document)
    ensures |FileWrites(doc)| == |ScalaBlocks(doc.fences)|
    ensures forall k :: 0 <= k < |FileWrites(doc)| ==>
              && FileWrites(doc)[k].Written?
              && Dirname(FileWrites(doc)[k].path) == OutputDir
              && EndsWith(FileWrites(doc)[k].path, ".scala")
              && FileWrites(doc)[k].content == ScalaBlocks(doc.fences)[k].code
  {
    forall k | 0 <= k < |FileWrites(doc)|
      ensures Dirname(FileWrites(doc)[k].path) == OutputDir && EndsWith(FileWrites(doc)[k].path, ".scala")
    {
      var name := OutputFileName(SanitizedBaseName(doc.path), k, ScalaBlocks(doc.fences)[k].code);
      OutputFileNameIsPlain(doc, k);
      DirnameOfJoin(OutputDir, name);
      assert FileWrites(doc)[k].path == OutputDir + "/" + name;
    }
  }

  /** Two blocks of one document that declare nothing never share a file: their fallback names
      differ in the index, which counts the kept blocks only. */
  lemma FallbackNamesDiffer(doc: Document, k1: nat, k2: nat)
    requires k1 < k2 < |ScalaBlocks(doc.fences)|
    requires ExtractClassName(ScalaBlocks(doc.fences)[k1].code).None?
    requires ExtractClassName(ScalaBlocks(doc.fences)[k2].code).None?
    ensures FileWrites(doc)[k1].path != FileWrites(doc)[k2].path
  {
    var base := SanitizedBaseName(doc.path);
    var n1 := OutputFileName(base, k1, ScalaBlocks(doc.fences)[k1].code);
    var n2 := OutputFileName(base, k2, ScalaBlocks(doc.fences)[k2].code);
    FileWritesAt(doc, k1);
    FileWritesAt(doc, k2);
    OutputFileNameIsPlain(doc, k1);
    OutputFileNameIsPlain(doc, k2);
    BasenameOfJoin(OutputDir, n1);
    BasenameOfJoin(OutputDir, n2);
    if n1 == n2 {
      FallbackNameInjective(base, k1, k2);
      assert false;
    }
  }

  /** The fallback name determines the index it was made from. */
  lemma FallbackNameInjective(base: string, k1: nat, k2: nat)
    requires base + "_" + Decimal(k1) + ".scala" == base + "_" + Decimal(k2) + ".scala"
    ensures k1 == k2
  {
    var n1 := base + "_" + Decimal(k1) + ".scala";
    var n2 := base + "_" + Decimal(k2) + ".scala";
    var d1, d2 := Decimal(k1), Decimal(k2);
    assert |d1| == |d2|;
    assert d1 == n1[|base| + 1..|base| + 1 + |d1|];
    assert d2 == n2[|base| + 1..|base| + 1 + |d2|];
    DecimalInjective(k1, k2);
  }

  /** A file that no write of `processFile` targets keeps its presence and its content. */
  lemma UntargetedFileUnchanged(s: State, doc: Document, p: string)
    requires forall k :: 0 <= k < |FileWrites(doc)| ==> FileWrites(doc)[k].path != p
    ensures p in Apply(s, FileWrites(doc)).files <==> p in s.files
    ensures p in s.files ==> Apply(s, FileWrites(doc)).files[p] == s.files[p]
  {
    ApplyUntouched(s, FileWrites(doc), p);
  }

  /** A file holds the code of the last block written to it: a later block with the same name
      overwrites an earlier one. */
  lemma LastBlockWins(s: State, doc: Document, p: string, k: nat)
    requires k < |FileWrites(doc)| && FileWrites(doc)[k].path == p
    requires forall k' :: k < k' < |FileWrites(doc)| ==> FileWrites(doc)[k'].path != p
    ensures p in Apply(s, FileWrites(doc)).files
    ensures Apply(s, FileWrites(doc)).files[p] == ScalaBlocks(doc.fences)[k].code
  {
    var w := FileWrites(doc);
    FileWritesAt(doc, k);
    ApplyLastWriteAt(s, w, k, p, ScalaBlocks(doc.fences)[k].code);
  }

  // ----- main: the roots in order -----

  /** The writes for a list of documents, in order. */
  function DocumentsWrites(docs: seq<Document>): seq<Effect>
    decreases |docs|
  {
    if docs == [] then [] else DocumentsWrites(docs[..|docs| - 1]) + FileWrites(docs[|docs| - 1])
  }

  /** What one root contributes: its documents' writes when it exists, nothing otherwise. */
  function RootWrites(root: string, tree: DirectoryTree): seq<Effect>
  {
    if root in tree then DocumentsWrites(tree[root]) else []
  }

  /** What one root contributes to the warnings. */
  function RootWarnings(root: string, tree: DirectoryTree): seq<string>
  {
    if root in tree then [] else ["Directory not found: " + root]
  }

  /** The writes for a list of roots: each existing root's documents in turn, nothing for a
      missing one. */
  function RootWritesOf(tree: DirectoryTree): string -> seq<Effect>
  {
    root => RootWrites(root, tree)
  }

  function RootWarningsOf(tree: DirectoryTree): string -> seq<string>
  {
    root => RootWarnings(root, tree)
  }

  function RootsWrites(roots: seq<string>, tree: DirectoryTree): seq<Effect>
  {
    FlatMap(RootWritesOf(tree), roots)
  }

  /** One warning per missing root, in order. */
  function MissingRootWarnings(roots: seq<string>, tree: DirectoryTree): seq<string>
  {
    FlatMap(RootWarningsOf(tree), roots)
  }

  /** Processing one more document of the list. */
  lemma DocumentsStep(s: State, files: seq<Document>, j: nat)
    requires j < |files|
    ensures Apply(s, DocumentsWrites(files[..j + 1])) == Apply(Apply(s, DocumentsWrites(files[..j])), FileWrites(files[j]))
  {
    assert files[..j + 1][..j] == files[..j];
    ApplyAppend(s, DocumentsWrites(files[..j]), FileWrites(files[j]));
  }

  /** Processing one more root of the list. */
  lemma RootsStep(s: State, roots: seq<string>, i: nat, tree: DirectoryTree)
    requires i < |roots|
    ensures Apply(s, RootsWrites(roots[..i + 1], tree)) == Apply(Apply(s, RootsWrites(roots[..i], tree)), RootWrites(roots[i], tree))
    ensures MissingRootWarnings(roots[..i + 1], tree) == MissingRootWarnings(roots[..i], tree) + RootWarnings(roots[i], tree)
  {
    assert roots[..i + 1] == roots[..i] + [roots[i]];
    RootsWritesSnoc(roots[..i], roots[i], tree);
    WarningsSnoc(roots[..i], roots[i], tree);
    ApplyAppend(s, RootsWrites(roots[..i], tree), RootWrites(roots[i], tree));
  }

  lemma RootsWritesSnoc(roots: seq<string>, r: string, tree: DirectoryTree)
    ensures RootsWrites(roots + [r], tree) == RootsWrites(roots, tree) + RootWrites(r, tree)
  {
    FlatMapSnoc(RootWritesOf(tree), roots, r);
  }

  lemma WarningsSnoc(roots: seq<string>, r: string, tree: DirectoryTree)
    ensures MissingRootWarnings(roots + [r], tree) == MissingRootWarnings(roots, tree) + RootWarnings(r, tree)
  {
    FlatMapSnoc(RootWarningsOf(tree), roots, r);
  }

  /** The roots contribute their writes in list order, each independently of the others. */
  lemma RootsWritesInListOrder(a: seq<string>, b: seq<string>, tree: DirectoryTree)
    ensures RootsWrites(a + b, tree) == RootsWrites(a, tree) + RootsWrites(b, tree)
  {
    FlatMapAppend(RootWritesOf(tree), a, b);
  }

  /** The warnings, too, come in list order. */
  lemma WarningsInListOrder(a: seq<string>, b: seq<string>, tree: DirectoryTree)
    ensures MissingRootWarnings(a + b, tree) == MissingRootWarnings(a, tree) + MissingRootWarnings(b, tree)
  {
    FlatMapAppend(RootWarningsOf(tree), a, b);
  }

  /** A missing root is skipped with a warning and contributes no writes. */
  lemma MissingRootSkipped(root: string, tree: DirectoryTree)
    requires root !in tree
    ensures RootsWrites([root], tree) == []
    ensures MissingRootWarnings([root], tree) == ["Directory not found: " + root]
  {
    FlatMapSnoc(RootWritesOf(tree), [], root);
    FlatMapSnoc(RootWarningsOf(tree), [], root);
    assert [] + [root] == [root];
  }

  /** `processFile` on each file `glob` found under one root, in order. */
  method ProcessFiles(files: seq<Document>, fs: FileSystem)
    modifies fs
    ensures fs.Snapshot() == Apply(old(fs.Snapshot()), DocumentsWrites(files))
  {
    ghost var start := fs.Snapshot();
    var j := 0;
    while j < |files|
      invariant 0 <= j <= |files|
      invariant fs.Snapshot() == Apply(start, DocumentsWrites(files[..j]))
    {
      DocumentsStep(start, files, j);
      ProcessFile(files[j], fs);
      j := j + 1;
    }
    assert files[..j] == files;
  }

  /** The loop of `main` over the roots. */
  method ExtractFrom(roots: seq<string>, tree: DirectoryTree, fs: FileSystem) returns (warnings: seq<string>)
    modifies fs
    ensures fs.Snapshot() == Apply(old(fs.Snapshot()), RootsWrites(roots, tree))
    ensures warnings == MissingRootWarnings(roots, tree)
  {
    ghost var start := fs.Snapshot();
    warnings := [];
    var i := 0;
    while i < |roots|
      invariant 0 <= i <= |roots|
      invariant fs.Snapshot() == Apply(start, RootsWrites(roots[..i], tree))
      invariant warnings == MissingRootWarnings(roots[..i], tree)
    {
      var dir := roots[i];
      RootsStep(start, roots, i, tree);
      if dir in tree {
        ProcessFiles(tree[dir], fs);
      } else {
        warnings := warnings + ["Directory not found: " + dir];
      }
      i := i + 1;
    }
    assert roots[..i] == roots;
  }

  /** The script: create the output directory, then extract from the roots in order. */
  method ExtractAll(tree: DirectoryTree, fs: FileSystem) returns (warnings: seq<string>)
    modifies fs
    ensures fs.Snapshot() == Apply(old(fs.Snapshot()), [DirCreated(OutputDir)] + RootsWrites(DirsToSearch, tree))
    ensures warnings == MissingRootWarnings(DirsToSearch, tree)
  {
    ghost var start := fs.Snapshot();
    fs.MakeDir(OutputDir);
    ApplyAppend(start, [DirCreated(OutputDir)], RootsWrites(DirsToSearch, tree));
    warnings := ExtractFrom(DirsToSearch, tree, fs);
  }
}
