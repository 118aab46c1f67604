/** An abstract file tree standing in for the disk that the skill manager works on.
    A path is the sequence of its segments from the root; `files` maps each file's
    path to its text and `dirs` is the set of directories. The filesystem
    actions the manager performs (`mkdir(parents=True)`, `read_text`, `write_text`,
    `rmtree`, `iterdir`) are the operations below. */
module Paths {

  type Path = seq<string>

  datatype FileTree = FileTree(files: map<Path, string>, dirs: set<Path>)

  /** The directory a file or directory sits in. */
  function Parent(p: Path): (q: Path)
    requires |p| > 0
    ensures q <= p && |q| + 1 == |p|
  {
    p[..|p| - 1]
  }

  /** A path and every directory above it, down to the root `[]`. */
  function Ancestors(p: Path): (r: set<Path>)
    ensures forall q :: q in r <==> q <= p
  {
    var r := set k | 0 <= k <= |p| :: p[..k];
    assert forall q :: q <= p ==> q == p[..|q|];
    r
  }

  /** Every directory's ancestors are directories, and every file sits in a directory. */
  ghost predicate WellFormed(t: FileTree) {
    && (forall d, k :: d in t.dirs && 0 <= k <= |d| ==> d[..k] in t.dirs)
    && (forall f :: f in t.files ==> |f| > 0 && Parent(f) in t.dirs)
  }

  /** `p` lies at or beneath none of `roots`. */
  predicate Outside(p: Path, roots: seq<Path>) {
    forall k :: 0 <= k < |roots| ==> !(roots[k] <= p)
  }

  /** The directories one level beneath `p`: what `iterdir` yields, filtered by `is_dir`. */
  function Children(dirs: set<Path>, p: Path): (r: set<Path>)
    ensures r <= dirs
    ensures forall s :: p + [s] in r <==> p + [s] in dirs
    ensures forall d :: d in r ==> exists s :: d == p + [s]
  {
    var r := set d | d in dirs && |d| == |p| + 1 && p <= d;
    assert forall d :: d in r ==> d == p + [d[|p|]];
    r
  }

  /** `mkdir(p, parents=True, exist_ok=True)`. */
  function MakeDirs(t: FileTree, p: Path): FileTree {
    FileTree(t.files, t.dirs + Ancestors(p))
  }

  /** `write_text(content)` at `p`, creating or overwriting the file. */
  function WriteFile(t: FileTree, p: Path, content: string): FileTree {
    FileTree(t.files[p := content], t.dirs)
  }

  /** `read_text()`: Python opens the file in universal-newline mode, so `"\r\n"` and a
      lone `'\r'` both arrive as `'\n'`. */
  function ReadText(content: string): (r: string)
    ensures '\r' !in r
    ensures '\r' !in content ==> r == content
    ensures |r| <= |content|
    decreases |content|
  {
    if content == [] then []
    else if content[0] == '\r' then
      "\n" + ReadText(if |content| > 1 && content[1] == '\n' then content[2..] else content[1..])
    else [content[0]] + ReadText(content[1..])
  }

  /** A character other than `'\r'` is read as it is. */
  lemma ReadTextCons(c: char, rest: string)
    requires c != '\r'
    ensures ReadText([c] + rest) == [c] + ReadText(rest)
  {
    assert ([c] + rest)[1..] == rest;
  }

  lemma ReadTextStartCrLf(b: string)
    ensures ReadText("\r\n" + b) == "\n" + ReadText(b)
  {
    assert ("\r\n" + b)[2..] == b;
  }

  lemma ReadTextStartCr(b: string)
    requires b == [] || b[0] != '\n'
    ensures ReadText("\r" + b) == "\n" + ReadText(b)
  {
    assert ("\r" + b)[1..] == b;
  }

  /** A Windows line end `"\r\n"` in a file arrives as one `'\n'`. */
  lemma {:induction false} ReadTextCrLf(a: string, b: string)
    requires '\r' !in a
    ensures ReadText(a + "\r\n" + b) == a + "\n" + ReadText(b)
    decreases |a|
  {
    var x := a + "\r\n" + b;
    if a == [] {
      assert x == "\r\n" + b && a + "\n" == "\n";
      ReadTextStartCrLf(b);
    } else {
      calc {
        ReadText(x);
      == { assert x == [a[0]] + (a[1..] + "\r\n" + b); ReadTextCons(a[0], a[1..] + "\r\n" + b); }
        [a[0]] + ReadText(a[1..] + "\r\n" + b);
      == { ReadTextCrLf(a[1..], b); }
        [a[0]] + (a[1..] + "\n" + ReadText(b));
      == { assert a == [a[0]] + a[1..]; }
        a + "\n" + ReadText(b);
      }
    }
  }

  /** A lone `'\r'` in a file arrives as `'\n'` too. */
  lemma {:induction false} ReadTextLoneCr(a: string, b: string)
    requires '\r' !in a
    requires b == [] || b[0] != '\n'
    ensures ReadText(a + "\r" + b) == a + "\n" + ReadText(b)
    decreases |a|
  {
    var x := a + "\r" + b;
    if a == [] {
      assert x == "\r" + b && a + "\n" == "\n";
      ReadTextStartCr(b);
    } else {
      calc {
        ReadText(x);
      == { assert x == [a[0]] + (a[1..] + "\r" + b); ReadTextCons(a[0], a[1..] + "\r" + b); }
        [a[0]] + ReadText(a[1..] + "\r" + b);
      == { ReadTextLoneCr(a[1..], b); }
        [a[0]] + (a[1..] + "\n" + ReadText(b));
      == { assert a == [a[0]] + a[1..]; }
        a + "\n" + ReadText(b);
      }
    }
  }

  /** `rmtree(root)`: `root` and everything beneath it disappear. */
  function RemoveTree(t: FileTree, root: Path): FileTree {
    FileTree(map p | p in t.files && !(root <= p) :: t.files[p],
             set d | d in t.dirs && !(root <= d))
  }

  /** Writing the same text to each path in turn. */
  function WriteAll(t: FileTree, paths: seq<Path>, content: string): FileTree
    decreases |paths|
  {
    if paths == [] then t
    else WriteFile(WriteAll(t, paths[..|paths| - 1], content), paths[|paths| - 1], content)
  }

  /** Removing each tree in turn. */
  function RemoveTrees(t: FileTree, roots: seq<Path>): FileTree
    decreases |roots|
  {
    if roots == [] then t
    else RemoveTree(RemoveTrees(t, roots[..|roots| - 1]), roots[|roots| - 1])
  }

  /** After writing, the written paths hold `content`, every other file is untouched,
      and no directory changes. */
  lemma {:induction false} WriteAllContents(t: FileTree, paths: seq<Path>, content: string)
    ensures WriteAll(t, paths, content).dirs == t.dirs
    ensures forall p :: p in WriteAll(t, paths, content).files <==> p in t.files || p in paths
    ensures forall p :: p in paths ==> WriteAll(t, paths, content).files[p] == content
    ensures forall p :: p in t.files && p !in paths ==> WriteAll(t, paths, content).files[p] == t.files[p]
    decreases |paths|
  {
    if paths != [] {
      var init := paths[..|paths| - 1];
      WriteAllContents(t, init, content);
      assert forall p :: p in paths <==> p in init || p == paths[|paths| - 1];
    }
  }

  /** Writing to files the text they already hold changes nothing. */
  lemma {:induction false} WriteAllUnchanged(t: FileTree, paths: seq<Path>, content: string)
    requires forall p :: p in paths ==> p in t.files && t.files[p] == content
    ensures WriteAll(t, paths, content) == t
    decreases |paths|
  {
    if paths != [] {
      var init := paths[..|paths| - 1];
      var last := paths[|paths| - 1];
      assert forall p :: p in init ==> p in paths;
      WriteAllUnchanged(t, init, content);
      assert t.files[last := content] == t.files;
    }
  }

  /** After removing the trees, exactly the paths outside all of them remain,
      with their old contents. */
  lemma {:induction false} RemoveTreesContents(t: FileTree, roots: seq<Path>)
    ensures forall p :: p in RemoveTrees(t, roots).files <==> p in t.files && Outside(p, roots)
    ensures forall p :: p in RemoveTrees(t, roots).files ==> RemoveTrees(t, roots).files[p] == t.files[p]
    ensures forall d :: d in RemoveTrees(t, roots).dirs <==> d in t.dirs && Outside(d, roots)
    decreases |roots|
  {
    if roots != [] {
      var init := roots[..|roots| - 1];
      RemoveTreesContents(t, init);
      forall p ensures Outside(p, roots) <==> Outside(p, init) && !(roots[|roots| - 1] <= p) {
        if Outside(p, init) && !(roots[|roots| - 1] <= p) {
          forall k | 0 <= k < |roots| ensures !(roots[k] <= p) {
            if k < |init| { assert roots[k] == init[k]; }
          }
        }
        if Outside(p, roots) {
          forall k | 0 <= k < |init| ensures !(init[k] <= p) {
            assert init[k] == roots[k];
          }
        }
      }
    }
  }

  lemma MakeDirsWellFormed(t: FileTree, p: Path)
    requires WellFormed(t)
    ensures WellFormed(MakeDirs(t, p)) && p in MakeDirs(t, p).dirs
  {
    var t' := MakeDirs(t, p);
    forall d, k | d in t'.dirs && 0 <= k <= |d| ensures d[..k] in t'.dirs {
      if d !in t.dirs {
        assert d[..k] <= d && d <= p;
      }
    }
  }

  lemma WriteFileWellFormed(t: FileTree, p: Path, content: string)
    requires WellFormed(t)
    requires |p| > 0 && Parent(p) in t.dirs
    ensures WellFormed(WriteFile(t, p, content))
  {
  }

  lemma RemoveTreeWellFormed(t: FileTree, root: Path)
    requires WellFormed(t)
    ensures WellFormed(RemoveTree(t, root))
  {
    var t' := RemoveTree(t, root);
    forall d, k | d in t'.dirs && 0 <= k <= |d| ensures d[..k] in t'.dirs {
      assert d[..k] in t.dirs && d[..k] <= d;
    }
  }

  /** Overwriting files that already exist keeps the tree well formed. */
  lemma {:induction false} WriteAllWellFormed(t: FileTree, paths: seq<Path>, content: string)
    requires WellFormed(t)
    requires forall k :: 0 <= k < |paths| ==> paths[k] in t.files
    ensures WellFormed(WriteAll(t, paths, content))
    decreases |paths|
  {
    if paths != [] {
      var init := paths[..|paths| - 1];
      WriteAllWellFormed(t, init, content);
      WriteAllContents(t, init, content);
      WriteFileWellFormed(WriteAll(t, init, content), paths[|paths| - 1], content);
    }
  }

  lemma {:induction false} RemoveTreesWellFormed(t: FileTree, roots: seq<Path>)
    requires WellFormed(t)
    ensures WellFormed(RemoveTrees(t, roots))
    decreases |roots|
  {
    if roots != [] {
      RemoveTreesWellFormed(t, roots[..|roots| - 1]);
      RemoveTreeWellFormed(RemoveTrees(t, roots[..|roots| - 1]), roots[|roots| - 1]);
    }
  }
}
