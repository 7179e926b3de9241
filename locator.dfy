/**
 * `find_env_files`: pick the environment files out of a directory walk.
 * The walk itself (`os.walk('.')`) is filesystem I/O; it enters the model as
 * the sequence of `(root, files)` entries it would yield, in its own order.
 */
module Locator {

  /** One step of the walk: a directory and the names of the files directly in it. */
  datatype WalkEntry = WalkEntry(root: string, files: seq<string>)

  /** `Path(root) / file`, kept as its two parts. */
  datatype Path = Path(dir: string, name: string)

  /** Python's `s.endswith(suffix)`. */
  predicate EndsWith(s: string, suffix: string)
  {
    |suffix| <= |s| && s[|s| - |suffix|..] == suffix
  }

  /** `s.endswith(suffix)` holds exactly when `s` is some text followed by `suffix`. */
  lemma EndsWithMeaning(s: string, suffix: string)
    ensures EndsWith(s, suffix) <==> exists stem :: s == stem + suffix
  {
    if EndsWith(s, suffix) {
      assert s == s[..|s| - |suffix|] + suffix;
    }
  }

  /** The naming convention the script looks for. */
  predicate IsEnvFileName(name: string)
  {
    EndsWith(name, ".env") || EndsWith(name, ".env.example")
  }

  /** The convention accepts exactly the names ending in `.env` or in `.env.example`. */
  lemma IsEnvFileNameMeaning(name: string)
    ensures IsEnvFileName(name) <==>
      (exists stem :: name == stem + ".env") || (exists stem :: name == stem + ".env.example")
  {
    EndsWithMeaning(name, ".env");
    EndsWithMeaning(name, ".env.example");
  }

  predicate Distinct<T(==)>(s: seq<T>)
  {
    forall i, j :: 0 <= i < j < |s| ==> s[i] != s[j]
  }

  /** The paths the inner loop appends for one directory, in listing order. */
  function SelectNames(root: string, names: seq<string>): (paths: seq<Path>)
    ensures |paths| <= |names|
    ensures forall i :: 0 <= i < |paths| ==> paths[i].dir == root && IsEnvFileName(paths[i].name)
  {
    if |names| == 0 then []
    else
      var name := names[|names| - 1];
      SelectNames(root, names[..|names| - 1]) + (if IsEnvFileName(name) then [Path(root, name)] else [])
  }

  /** The paths the whole walk contributes, directory by directory. */
  function Selected(walk: seq<WalkEntry>): (paths: seq<Path>)
    ensures forall i :: 0 <= i < |paths| ==> IsEnvFileName(paths[i].name)
  {
    if |walk| == 0 then []
    else
      var entry := walk[|walk| - 1];
      Selected(walk[..|walk| - 1]) + SelectNames(entry.root, entry.files)
  }

  method FindEnvFiles(walk: seq<WalkEntry>) returns (envFiles: seq<Path>)
    ensures envFiles == Selected(walk)
  {
    envFiles := [];
    for i := 0 to |walk|
      invariant envFiles == Selected(walk[..i])
    {
      var entry := walk[i];
      for j := 0 to |entry.files|
        invariant envFiles == Selected(walk[..i]) + SelectNames(entry.root, entry.files[..j])
      {
        var file := entry.files[j];
        assert entry.files[..j + 1][..j] == entry.files[..j];
        assert SelectNames(entry.root, entry.files[..j + 1])
            == SelectNames(entry.root, entry.files[..j]) + (if IsEnvFileName(file) then [Path(entry.root, file)] else []);
        if EndsWith(file, ".env") || EndsWith(file, ".env.example") {
          envFiles := envFiles + [Path(entry.root, file)];
        }
      }
      assert entry.files[..|entry.files|] == entry.files;
      assert walk[..i + 1][..i] == walk[..i];
      assert Selected(walk[..i + 1]) == Selected(walk[..i]) + SelectNames(entry.root, entry.files);
    }
    assert walk[..|walk|] == walk;
  }

  /** A name in a directory listing is selected iff it follows the convention. */
  lemma {:induction false} SelectNamesMembership(root: string, names: seq<string>, p: Path)
    ensures p in SelectNames(root, names) <==> p.dir == root && p.name in names && IsEnvFileName(p.name)
  {
    if |names| > 0 {
      var init := names[..|names| - 1];
      SelectNamesMembership(root, init, p);
      assert names == init + [names[|names| - 1]];
    }
  }

  /** A path comes out of the walk iff some entry lists it and its name follows the convention. */
  lemma {:induction false} SelectedMembership(walk: seq<WalkEntry>, p: Path)
    ensures p in Selected(walk) <==>
      IsEnvFileName(p.name) && exists i :: 0 <= i < |walk| && walk[i].root == p.dir && p.name in walk[i].files
  {
    if |walk| > 0 {
      var n := |walk| - 1;
      SelectedMembership(walk[..n], p);
      SelectNamesMembership(walk[n].root, walk[n].files, p);
      if p in Selected(walk) && p !in Selected(walk[..n]) {
        assert walk[n].root == p.dir && p.name in walk[n].files;
      }
      if IsEnvFileName(p.name) && p !in Selected(walk[..n]) {
        if i :| 0 <= i < |walk| && walk[i].root == p.dir && p.name in walk[i].files {
          assert i == n;
        }
      }
    }
  }

  /** Splitting a directory listing splits the selection: listing order is kept. */
  lemma {:induction false} SelectNamesAppend(root: string, a: seq<string>, b: seq<string>)
    ensures SelectNames(root, a + b) == SelectNames(root, a) + SelectNames(root, b)
    decreases |b|
  {
    if |b| > 0 {
      var n := |b| - 1;
      assert (a + b)[..|a + b| - 1] == a + b[..n];
      SelectNamesAppend(root, a, b[..n]);
    } else {
      assert a + b == a;
    }
  }

  /** Splitting the walk splits the selection: walk order is kept. */
  lemma {:induction false} SelectedAppend(w1: seq<WalkEntry>, w2: seq<WalkEntry>)
    ensures Selected(w1 + w2) == Selected(w1) + Selected(w2)
    decreases |w2|
  {
    if |w2| > 0 {
      var n := |w2| - 1;
      assert (w1 + w2)[..|w1 + w2| - 1] == w1 + w2[..n];
      SelectedAppend(w1, w2[..n]);
    } else {
      assert w1 + w2 == w1;
    }
  }

  /** A directory listing without repeated names yields each path at most once. */
  lemma {:induction false} SelectNamesDistinct(root: string, names: seq<string>)
    requires Distinct(names)
    ensures Distinct(SelectNames(root, names))
  {
    if |names| > 0 {
      var n := |names| - 1;
      var init := names[..n];
      SelectNamesDistinct(root, init);
      if IsEnvFileName(names[n]) {
        var ps := SelectNames(root, init);
        forall i | 0 <= i < |ps|
          ensures ps[i] != Path(root, names[n])
        {
          assert ps[i] in ps;
          SelectNamesMembership(root, init, ps[i]);
        }
      }
    }
  }

  /**
   * A walk that visits each directory once, each listing its files once,
   * finds each path at most once.
   */
  lemma {:induction false} SelectedDistinct(walk: seq<WalkEntry>)
    requires forall i, j :: 0 <= i < j < |walk| ==> walk[i].root != walk[j].root
    requires forall i :: 0 <= i < |walk| ==> Distinct(walk[i].files)
    ensures Distinct(Selected(walk))
  {
    if |walk| > 0 {
      var n := |walk| - 1;
      var init := walk[..n];
      SelectedDistinct(init);
      SelectNamesDistinct(walk[n].root, walk[n].files);
      var a, b := Selected(init), SelectNames(walk[n].root, walk[n].files);
      forall i, j | 0 <= i < |a| && 0 <= j < |b|
        ensures a[i] != b[j]
      {
        SelectedMembership(init, a[i]);
        var k :| 0 <= k < |init| && init[k].root == a[i].dir && a[i].name in init[k].files;
        assert walk[k].root != walk[n].root;
      }
      assert Selected(walk) == a + b;
    }
  }
}
