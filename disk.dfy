/** The file system the tools write to: a set of directories and a map from file path to content,
    changed in place by `mkdir`, `writeFile` and `unlink`. */
module Disk {

  /** One change to the file system. */
  datatype Effect = DirCreated(dir: string) | Written(path: string, content: string) | Removed(path: string)

  datatype State = State(dirs: set<string>, files: map<string, string>)

  function Step(s: State, e: Effect): State
  {
    match e
    case DirCreated(d) => s.(dirs := s.dirs + {d})
    case Written(p, c) => s.(files := s.files[p := c])
    case Removed(p) => s.(files := s.files - {p})
  }

  /** The state after performing `es` in order. */
  function Apply(s: State, es: seq<Effect>): State
    decreases |es|
  {
    if es == [] then s else Apply(Step(s, es[0]), es[1..])
  }

  /** Whether `e` changes the file stored at `p`. */
  predicate Touches(e: Effect, p: string)
  {
    (e.Written? || e.Removed?) && e.path == p
  }

  lemma {:induction false} ApplyAppend(s: State, a: seq<Effect>, b: seq<Effect>)
    ensures Apply(s, a + b) == Apply(Apply(s, a), b)
    decreases |a|
  {
    if a == [] {
      assert a + b == b;
    } else {
      assert (a + b)[0] == a[0];
      assert (a + b)[1..] == a[1..] + b;
      ApplyAppend(Step(s, a[0]), a[1..], b);
    }
  }

  /** Performing one more effect. */
  lemma ApplySnoc(s: State, es: seq<Effect>, e: Effect)
    ensures Apply(s, es + [e]) == Step(Apply(s, es), e)
  {
    ApplyAppend(s, es, [e]);
    assert [e][1..] == [];
  }

  /** Performing the effects of a list one more at a time. */
  lemma ApplyPrefixStep(s: State, es: seq<Effect>, i: nat)
    requires i < |es|
    ensures Apply(s, es[..i + 1]) == Step(Apply(s, es[..i]), es[i])
  {
    assert es[..i + 1] == es[..i] + [es[i]];
    ApplySnoc(s, es[..i], es[i]);
  }

  lemma UntouchedAppend(a: seq<Effect>, b: seq<Effect>, p: string)
    requires forall i :: 0 <= i < |a| ==> !Touches(a[i], p)
    requires forall i :: 0 <= i < |b| ==> !Touches(b[i], p)
    ensures forall i :: 0 <= i < |a + b| ==> !Touches((a + b)[i], p)
  {
    forall i | 0 <= i < |a + b| ensures !Touches((a + b)[i], p) {
      if i >= |a| { assert (a + b)[i] == b[i - |a|]; }
    }
  }

  /** A file that no effect touches keeps its presence and its content. */
  lemma {:induction false} ApplyUntouched(s: State, es: seq<Effect>, p: string)
    requires forall i :: 0 <= i < |es| ==> !Touches(es[i], p)
    ensures (p in Apply(s, es).files) == (p in s.files)
    ensures p in s.files ==> Apply(s, es).files[p] == s.files[p]
    decreases |es|
  {
    if es != [] {
      assert forall i :: 0 <= i < |es| - 1 ==> es[1..][i] == es[i + 1];
      ApplyUntouched(Step(s, es[0]), es[1..], p);
    }
  }

  /** The content of a file is the one its last write gave it, when nothing removes it afterwards. */
  lemma ApplyLastWrite(s: State, before: seq<Effect>, p: string, c: string, after: seq<Effect>)
    requires forall i :: 0 <= i < |after| ==> !Touches(after[i], p)
    ensures p in Apply(s, before + [Written(p, c)] + after).files
    ensures Apply(s, before + [Written(p, c)] + after).files[p] == c
  {
    ApplyAppend(s, before + [Written(p, c)], after);
    ApplyAppend(s, before, [Written(p, c)]);
    var mid := Apply(s, before + [Written(p, c)]);
    assert mid == Step(Apply(s, before), Written(p, c));
    ApplyUntouched(mid, after, p);
  }

  /** The same, for the write at index k of a list of effects. */
  lemma ApplyLastWriteAt(s: State, w: seq<Effect>, k: nat, p: string, c: string)
    requires k < |w| && w[k] == Written(p, c)
    requires forall i :: k < i < |w| ==> !Touches(w[i], p)
    ensures p in Apply(s, w).files && Apply(s, w).files[p] == c
  {
    var after := w[k + 1..];
    assert w == w[..k] + [Written(p, c)] + after;
    assert forall i :: 0 <= i < |after| ==> after[i] == w[k + 1 + i];
    ApplyLastWrite(s, w[..k], p, c, after);
  }

  /** A file that is removed and not written again is absent. */
  lemma ApplyLastRemove(s: State, before: seq<Effect>, p: string, after: seq<Effect>)
    requires forall i :: 0 <= i < |after| ==> !Touches(after[i], p)
    ensures p !in Apply(s, before + [Removed(p)] + after).files
  {
    ApplyAppend(s, before + [Removed(p)], after);
    ApplyAppend(s, before, [Removed(p)]);
    var mid := Apply(s, before + [Removed(p)]);
    assert mid == Step(Apply(s, before), Removed(p));
    ApplyUntouched(mid, after, p);
  }

  /** Directories are only ever added, exactly those named by a `DirCreated` effect. */
  lemma {:induction false} ApplyDirs(s: State, es: seq<Effect>)
    ensures Apply(s, es).dirs == s.dirs + set i | 0 <= i < |es| && es[i].DirCreated? :: es[i].dir
    decreases |es|
  {
    if es != [] {
      ApplyDirs(Step(s, es[0]), es[1..]);
      var rest := set i | 0 <= i < |es| - 1 && es[1..][i].DirCreated? :: es[1..][i].dir;
      var all := set i | 0 <= i < |es| && es[i].DirCreated? :: es[i].dir;
      assert all == (if es[0].DirCreated? then {es[0].dir} else {}) + rest by {
        forall d | d in all ensures d in (if es[0].DirCreated? then {es[0].dir} else {}) + rest {
          var i :| 0 <= i < |es| && es[i].DirCreated? && es[i].dir == d;
          if i > 0 { assert es[1..][i - 1] == es[i]; }
        }
        forall d | d in rest ensures d in all {
          var i :| 0 <= i < |es| - 1 && es[1..][i].DirCreated? && es[1..][i].dir == d;
          assert es[i + 1] == es[1..][i];
        }
      }
    }
  }

  class FileSystem {
    var dirs: set<string>
    var files: map<string, string>

    function Snapshot(): State
      reads this
    {
      State(dirs, files)
    }

    constructor (initial: State)
      ensures Snapshot() == initial
    {
      dirs := initial.dirs;
      files := initial.files;
    }

    /** `fs.existsSync(dir)` for a directory. */
    predicate DirExists(dir: string)
      reads this
    {
      dir in dirs
    }

    /** `fs.mkdirSync(dir, { recursive: true })`: no error when it already exists. */
    method MakeDir(dir: string)
      modifies this
      ensures dirs == old(dirs) + {dir} && files == old(files)
      ensures Snapshot() == Step(old(Snapshot()), DirCreated(dir))
    {
      dirs := dirs + {dir};
    }

    /** `if (!fs.existsSync(dir)) fs.mkdirSync(dir, { recursive: true })`: the directory exists
        afterwards, whether it did before or not. */
    method EnsureDir(dir: string)
      modifies this
      ensures Snapshot() == Step(old(Snapshot()), DirCreated(dir))
    {
      if !DirExists(dir) {
        MakeDir(dir);
      } else {
        assert dirs + {dir} == dirs;
      }
    }

    /** `fs.writeFileSync(path, content)`: creates or overwrites the file. */
    method WriteFile(path: string, content: string)
      modifies this
      ensures files == old(files)[path := content] && dirs == old(dirs)
      ensures Snapshot() == Step(old(Snapshot()), Written(path, content))
    {
      files := files[path := content];
    }

    /** Removing a file (`unlink`). */
    method RemoveFile(path: string)
      modifies this
      ensures files == old(files) - {path} && dirs == old(dirs)
      ensures Snapshot() == Step(old(Snapshot()), Removed(path))
    {
      files := files - {path};
    }
  }
}
