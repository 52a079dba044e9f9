/** Slash-separated absolute paths, held as sequences of elements, and the parts of
    Go's path/filepath and strings packages that the watcher relies on: Split, Rel,
    Join and strings.Split on "/". */
module Paths {

  /** An element of a clean path: non-empty, free of the separator, neither "." nor "..". */
  predicate IsName(s: string) {
    s != "" && s != "." && s != ".." && '/' !in s
  }

  /** Every element is a name: the form in which the kernel reports a resolved path. */
  predicate IsClean(p: seq<string>) {
    forall i :: 0 <= i < |p| ==> IsName(p[i])
  }

  /** `root` is a leading run of `p`, element by element. */
  predicate IsPrefix(root: seq<string>, p: seq<string>) {
    |root| <= |p| && p[..|root|] == root
  }

  /** `p` lies strictly below `root`, element by element. */
  predicate Within(p: seq<string>, root: seq<string>) {
    |root| < |p| && p[..|root|] == root
  }

  /** "/e1/e2/.../en"; the empty sequence contributes no text. */
  function Slashed(p: seq<string>): string {
    if p == [] then "" else "/" + p[0] + Slashed(p[1..])
  }

  /** The text of an absolute path; the file-system root is "/". */
  function Render(p: seq<string>): (s: string)
    ensures |s| > 0 && s[0] == '/'
  {
    if p == [] then "/" else Slashed(p)
  }

  /** strings.HasPrefix: a test on characters, blind to element boundaries. */
  predicate HasPrefix(s: string, prefix: string) {
    |prefix| <= |s| && s[..|prefix|] == prefix
  }

  lemma {:induction false} SlashedAppend(a: seq<string>, b: seq<string>)
    ensures Slashed(a + b) == Slashed(a) + Slashed(b)
  {
    if a == [] {
      assert a + b == b;
    } else {
      assert (a + b)[1..] == a[1..] + b;
      SlashedAppend(a[1..], b);
    }
  }

  /** Containment element by element implies the character prefix test passes. */
  lemma {:induction false} WithinHasPrefix(p: seq<string>, root: seq<string>)
    ensures Within(p, root) ==> HasPrefix(Render(p), Render(root))
  {
    if Within(p, root) && root != [] {
      assert p == root + p[|root|..];
      SlashedAppend(root, p[|root|..]);
    }
  }

  // ---------------------------------------------------------------------------
  // strings.Split(s, "/") and its inverse strings.Join(fs, "/")
  // ---------------------------------------------------------------------------

  /** strings.Split(s, "/"): the text between separators, always at least one field. */
  function SplitOnSlash(s: string): (fs: seq<string>)
    ensures |fs| > 0
    ensures forall i :: 0 <= i < |fs| ==> '/' !in fs[i]
  {
    if s == [] then [""]
    else
      var rest := SplitOnSlash(s[1..]);
      if s[0] == '/' then [""] + rest
      else [[s[0]] + rest[0]] + rest[1..]
  }

  /** strings.Join(fs, "/"). */
  function JoinWithSlash(fs: seq<string>): string {
    if fs == [] then "" else fs[0] + Slashed(fs[1..])
  }

  lemma {:induction false} JoinSplit(s: string)
    ensures JoinWithSlash(SplitOnSlash(s)) == s
  {
    if s != [] {
      var rest := SplitOnSlash(s[1..]);
      JoinSplit(s[1..]);
      assert JoinWithSlash(rest) == s[1..];
      if s[0] == '/' {
        assert SplitOnSlash(s) == [""] + rest;
        assert ([""] + rest)[1..] == rest;
        calc {
          JoinWithSlash(SplitOnSlash(s));
          "" + Slashed(rest);
          "/" + rest[0] + Slashed(rest[1..]);
          [s[0]] + s[1..];
        }
      } else {
        var fs := [[s[0]] + rest[0]] + rest[1..];
        assert SplitOnSlash(s) == fs;
        assert fs[1..] == rest[1..];
        calc {
          JoinWithSlash(fs);
          [s[0]] + rest[0] + Slashed(rest[1..]);
          [s[0]] + JoinWithSlash(rest);
          s;
        }
      }
    }
  }

  /** Text without a separator is one field. */
  lemma {:induction false} SplitSlashFree(a: string)
    requires '/' !in a
    ensures SplitOnSlash(a) == [a]
  {
    if a != [] {
      assert '/' !in a[1..] by {
        forall i | 0 <= i < |a[1..]| ensures a[1..][i] != '/' {
          assert a[1..][i] == a[i + 1];
        }
      }
      SplitSlashFree(a[1..]);
      assert [a[0]] + a[1..] == a;
    }
  }

  /** A separator-free lead is the first field, and splitting resumes after the separator. */
  lemma {:induction false} SplitAtSlash(a: string, t: string)
    requires '/' !in a
    ensures SplitOnSlash(a + "/" + t) == [a] + SplitOnSlash(t)
  {
    if a == [] {
      assert a + "/" + t == "/" + t;
      assert ("/" + t)[1..] == t;
    } else {
      assert '/' !in a[1..] by {
        forall i | 0 <= i < |a[1..]| ensures a[1..][i] != '/' {
          assert a[1..][i] == a[i + 1];
        }
      }
      SplitAtSlash(a[1..], t);
      assert (a + "/" + t)[1..] == a[1..] + "/" + t;
      assert [a[0]] + a[1..] == a;
    }
  }

  lemma {:induction false} SplitJoin(fs: seq<string>)
    requires |fs| > 0
    requires forall i :: 0 <= i < |fs| ==> '/' !in fs[i]
    ensures SplitOnSlash(JoinWithSlash(fs)) == fs
  {
    if |fs| == 1 {
      assert JoinWithSlash(fs) == fs[0];
      SplitSlashFree(fs[0]);
    } else {
      var tail := fs[1..];
      assert JoinWithSlash(fs) == fs[0] + "/" + JoinWithSlash(tail) by {
        assert tail[1..] == fs[2..];
      }
      SplitJoin(tail);
      SplitAtSlash(fs[0], JoinWithSlash(tail));
      assert [fs[0]] + tail == fs;
    }
  }

  // ---------------------------------------------------------------------------
  // filepath.Split, filepath.Rel, filepath.Join
  // ---------------------------------------------------------------------------

  /** filepath.Split: the containing directory and the final name. The root splits
      into itself and the empty name. */
  function Split(p: seq<string>): (r: (seq<string>, string))
    ensures p != [] ==> r.0 + [r.1] == p
    ensures p == [] ==> r == ([], "")
  {
    if p == [] then ([], "") else (p[..|p| - 1], p[|p| - 1])
  }

  /** The length of the longest common leading run of `a` and `b`. */
  function CommonLen(a: seq<string>, b: seq<string>): (n: nat)
    ensures n <= |a| && n <= |b|
    ensures a[..n] == b[..n]
    ensures n < |a| && n < |b| ==> a[n] != b[n]
  {
    if a == [] || b == [] || a[0] != b[0] then 0
    else
      var m := CommonLen(a[1..], b[1..]);
      assert a[..m + 1] == [a[0]] + a[1..][..m];
      assert b[..m + 1] == [b[0]] + b[1..][..m];
      m + 1
  }

  /** `n` copies of "..". */
  function Dots(n: nat): (ds: seq<string>)
    ensures |ds| == n
  {
    if n == 0 then [] else [".."] + Dots(n - 1)
  }

  /** filepath.Rel for two clean absolute paths, as elements: climb out of `base` to the
      common ancestor, then descend to `target`. The empty result is Go's ".". */
  function Rel(base: seq<string>, target: seq<string>): (r: seq<string>)
    ensures r == [] <==> base == target
    ensures IsPrefix(base, target) ==> r == target[|base|..]
  {
    var c := CommonLen(base, target);
    assert c == |base| && c == |target| ==> base == base[..c] && target == target[..c];
    Dots(|base| - c) + target[c..]
  }

  /** A joined run of fields reads "." only when its first field is ".". */
  lemma {:induction false} JoinedDot(fs: seq<string>)
    requires fs != []
    ensures JoinWithSlash(fs) == "." ==> fs[0] == "."
  {
    if fs[1..] != [] {
      assert Slashed(fs[1..])[0] == '/';
    }
  }

  /** The text filepath.Rel returns: "." exactly when the two paths are the same. */
  function RelText(base: seq<string>, target: seq<string>): (t: string)
    ensures IsClean(target) ==> (t == "." <==> base == target)
  {
    var rel := Rel(base, target);
    if rel == [] then "." else JoinedDot(rel); JoinWithSlash(rel)
  }

  /** Lexical resolution of one element against a clean absolute path: "" and "." stay,
      ".." climbs (never above the root), anything else descends. */
  function Descend(p: seq<string>, e: string): (r: seq<string>)
    ensures IsClean(p) && '/' !in e ==> IsClean(r)
  {
    if e == "" || e == "." then p
    else if e == ".." then (if p == [] then [] else p[..|p| - 1])
    else p + [e]
  }

  /** Resolve a run of elements one after another. */
  function Resolve(p: seq<string>, es: seq<string>): (r: seq<string>)
    ensures IsClean(p) && (forall i :: 0 <= i < |es| ==> '/' !in es[i]) ==> IsClean(r)
    decreases |es|
  {
    if es == [] then p else Resolve(Descend(p, es[0]), es[1..])
  }

  /** filepath.Join(root, elem) for a clean absolute root: the concatenation, cleaned, so
      the result is a clean path again. */
  function Join(root: seq<string>, elem: string): (r: seq<string>)
    ensures IsClean(root) ==> IsClean(r)
  {
    Resolve(root, SplitOnSlash(elem))
  }

  lemma {:induction false} ResolveAppend(p: seq<string>, a: seq<string>, b: seq<string>)
    ensures Resolve(p, a + b) == Resolve(Resolve(p, a), b)
    decreases |a|
  {
    if a != [] {
      assert (a + b)[1..] == a[1..] + b;
      ResolveAppend(Descend(p, a[0]), a[1..], b);
    } else {
      assert a + b == b;
    }
  }

  lemma {:induction false} ResolveDots(p: seq<string>, n: nat)
    requires n <= |p|
    ensures Resolve(p, Dots(n)) == p[..|p| - n]
  {
    if n > 0 {
      assert Dots(n)[1..] == Dots(n - 1);
      ResolveDots(p[..|p| - 1], n - 1);
      assert p[..|p| - 1][..|p| - 1 - (n - 1)] == p[..|p| - n];
    }
  }

  lemma {:induction false} ResolveNames(p: seq<string>, ns: seq<string>)
    requires IsClean(ns)
    ensures Resolve(p, ns) == p + ns
    decreases |ns|
  {
    if ns != [] {
      assert IsName(ns[0]);
      assert IsClean(ns[1..]) by {
        forall i | 0 <= i < |ns[1..]| ensures IsName(ns[1..][i]) {
          assert ns[1..][i] == ns[i + 1];
        }
      }
      ResolveNames(p + [ns[0]], ns[1..]);
      assert p + [ns[0]] + ns[1..] == p + ns;
    } else {
      assert p + ns == p;
    }
  }

  /** Go's documented identity: Join(base, Rel(base, target)) is target again. */
  lemma {:induction false} RelRoundTrip(base: seq<string>, target: seq<string>)
    requires IsClean(target)
    ensures Resolve(base, Rel(base, target)) == target
  {
    var c := CommonLen(base, target);
    var rest := target[c..];
    var up := Dots(|base| - c);
    assert Rel(base, target) == up + rest;
    ResolveAppend(base, up, rest);
    ResolveDots(base, |base| - c);
    assert Resolve(base, up) == base[..c];
    CleanSuffix(target, c);
    ResolveNames(base[..c], rest);
    assert base[..c] == target[..c];
    TakeDrop(target, c);
  }

  lemma TakeDrop<T>(s: seq<T>, n: nat)
    requires n <= |s|
    ensures s[..n] + s[n..] == s
  {
  }

  /** The first `n` elements of a clean path form a clean path. */
  lemma CleanPrefix(p: seq<string>, n: nat)
    requires IsClean(p) && n <= |p|
    ensures IsClean(p[..n])
  {
    forall i | 0 <= i < n ensures IsName(p[..n][i]) {
      assert p[..n][i] == p[i];
    }
  }

  /** What is left of a clean path after its first `n` elements is clean. */
  lemma CleanSuffix(p: seq<string>, n: nat)
    requires IsClean(p) && n <= |p|
    ensures IsClean(p[n..])
  {
    forall i | 0 <= i < |p[n..]| ensures IsName(p[n..][i]) {
      assert p[n..][i] == p[n + i];
    }
  }

  /** Joining a name descends exactly one level. */
  lemma {:induction false} JoinName(root: seq<string>, name: string)
    requires IsName(name)
    ensures Join(root, name) == root + [name]
  {
    SplitSlashFree(name);
    assert Resolve(root, [name]) == Resolve(root + [name], []);
  }

  /** Joining ".." leaves the root for its parent. */
  lemma {:induction false} JoinParent(root: seq<string>)
    requires root != []
    ensures Join(root, "..") == root[..|root| - 1]
  {
    SplitSlashFree("..");
    assert Resolve(root, [".."]) == Resolve(root[..|root| - 1], []);
  }
}
