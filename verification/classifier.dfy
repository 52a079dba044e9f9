/** The path classifier: which top-level entry of the watched root a changed path
    belongs to. That entry, its watch key, is the unit that must fall quiet as a whole
    and is moved as a whole. */
module Classifier {
  import Paths

  /** getWatchComponent: the final name when the path sits directly in `base`,
      otherwise the first field of the containing directory relative to `base`. The key
      never holds the separator, whatever the root: in one branch it is a final name, in
      the other a field of strings.Split. */
  function WatchComponent(path: seq<string>, base: seq<string>): (k: string)
    ensures Paths.IsClean(path) ==> '/' !in k
  {
    var (dir, fname) := Paths.Split(path);
    var relPath := Paths.RelText(base, dir);
    if relPath == "." then fname else Paths.SplitOnSlash(relPath)[0]
  }

  /** A file directly in the watched root is its own watch key. */
  lemma {:induction false} DirectChildKey(path: seq<string>, base: seq<string>)
    requires Paths.Within(path, base) && |path| == |base| + 1
    ensures WatchComponent(path, base) == path[|path| - 1]
  {
    var dir := path[..|path| - 1];
    assert dir == base;
    assert Paths.RelText(base, dir) == ".";
  }

  /** A deeper path is keyed by the first directory below the watched root. */
  lemma {:induction false} NestedKey(path: seq<string>, base: seq<string>)
    requires Paths.IsClean(path)
    requires Paths.Within(path, base) && |path| > |base| + 1
    ensures WatchComponent(path, base) == path[|base|]
  {
    var dir := path[..|path| - 1];
    assert Paths.IsPrefix(base, dir) && dir != base;
    Paths.CleanPrefix(path, |path| - 1);
    var rel := Paths.Rel(base, dir);
    assert rel == dir[|base|..];
    Paths.CleanSuffix(dir, |base|);
    assert Paths.RelText(base, dir) == Paths.JoinWithSlash(rel);
    Paths.SplitJoin(rel);
    assert rel[0] == path[|base|];
  }

  /** Both branches agree: the watch key is the path's first element below the root. */
  lemma {:induction false} KeyIsTopLevelEntry(path: seq<string>, base: seq<string>)
    requires Paths.IsClean(path) && Paths.Within(path, base)
    ensures WatchComponent(path, base) == path[|base|]
  {
    if |path| == |base| + 1 {
      DirectChildKey(path, base);
    } else {
      NestedKey(path, base);
    }
  }

  /** Two changed paths under the root share a key exactly when they share a top-level entry. */
  lemma {:induction false} SameKeyIffSameEntry(p: seq<string>, q: seq<string>, base: seq<string>)
    requires Paths.IsClean(p) && Paths.Within(p, base)
    requires Paths.IsClean(q) && Paths.Within(q, base)
    ensures WatchComponent(p, base) == WatchComponent(q, base) <==> p[|base|] == q[|base|]
  {
    KeyIsTopLevelEntry(p, base);
    KeyIsTopLevelEntry(q, base);
  }

  /** A key below the root is a proper name, so joining it to a root descends one level. */
  lemma {:induction false} KeyIsName(path: seq<string>, base: seq<string>)
    requires Paths.IsClean(path) && Paths.Within(path, base)
    ensures Paths.IsName(WatchComponent(path, base))
  {
    KeyIsTopLevelEntry(path, base);
  }

  /** The two worked examples: R/foo.txt is keyed "foo.txt", R/sub/deep/file.bin is keyed "sub". */
  lemma Examples()
    ensures WatchComponent(["R", "foo.txt"], ["R"]) == "foo.txt"
    ensures WatchComponent(["R", "sub", "deep", "file.bin"], ["R"]) == "sub"
  {
    DirectChildKey(["R", "foo.txt"], ["R"]);
    NestedExample();
  }

  lemma NestedExample()
    ensures WatchComponent(["R", "sub", "deep", "file.bin"], ["R"]) == "sub"
  {
    var p := ["R", "sub", "deep", "file.bin"];
    ExampleIsClean();
    assert p[..1] == ["R"];
    NestedKey(p, ["R"]);
  }

  lemma ExampleIsClean()
    ensures Paths.IsClean(["R", "sub", "deep", "file.bin"])
  {
    assert Paths.IsName("R");
    assert Paths.IsName("sub");
    assert Paths.IsName("deep");
    assert Paths.IsName("file.bin");
  }
}
