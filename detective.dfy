/**
 * `main`: find the files, union their names, split the union against the
 * environment, and decide the exit status. Printing is left out; the report
 * keeps exactly the figures and lists the script prints.
 */
module Detective {
  import opened Wrappers
  import opened Ordering
  import opened Locator
  import opened Extractor
  import opened Comparator

  /** How many present names the report lists before summarising the rest. */
  const PreviewLimit: nat := 5

  /** The per-file line: the path, how many names it gave, and the read error if one was reported. */
  datatype FileSummary = FileSummary(path: Path, count: nat, error: Option<string>)

  datatype Report =
    | NoFilesFound
    | CaseReport(
        files: seq<FileSummary>,   // in the order the walk found them
        uniqueCount: nat,          // size of the union of all files' names
        presentCount: nat,
        preview: seq<string>,      // the first present names listed
        more: Option<nat>,         // the N of "... and N more", when printed
        missing: seq<string>)      // listed in full

  /** `sys.exit(status)`: `None` exits with 0. */
  function ExitCode(status: Option<int>): (r: int)
    ensures r == 0 <==> status == None || status == Some(0)
    ensures status.Some? ==> r == status.value
  {
    match status
    case None => 0
    case Some(n) => n
  }

  /** `present[:5]` and the count behind "... and N more" when there are more than five. */
  function Preview(present: seq<string>): (r: (seq<string>, Option<nat>))
    ensures |r.0| == (if |present| < PreviewLimit then |present| else PreviewLimit)
    ensures r.0 == present[..|r.0|]
    ensures r.1.Some? <==> |present| > PreviewLimit
    ensures |r.0| + (if r.1.Some? then r.1.value else 0) == |present|
  {
    var shown := if |present| <= PreviewLimit then present else present[..PreviewLimit];
    (shown, if |present| > PreviewLimit then Some(|present| - PreviewLimit) else None)
  }

  /** The union the loop over the files accumulates. */
  function AllDeclared(paths: seq<Path>, fs: Path -> FileRead): (r: set<string>)
    ensures forall k :: k in r ==> IsVarName(k)
  {
    if |paths| == 0 then {}
    else AllDeclared(paths[..|paths| - 1], fs) + DeclaredKeys(fs(paths[|paths| - 1]).lines)
  }

  /** The per-file line: its path, its count of names, never more than its lines, and its read error. */
  function Summary(path: Path, fs: Path -> FileRead): (r: FileSummary)
    ensures r.path == path && r.error == fs(path).error
    ensures r.count <= |fs(path).lines|
  {
    FileSummary(path, |DeclaredKeys(fs(path).lines)|, fs(path).error)
  }

  /** The per-file lines, one for each path, in the same order. */
  function Summaries(paths: seq<Path>, fs: Path -> FileRead): (r: seq<FileSummary>)
    ensures |r| == |paths|
  {
    if |paths| == 0 then []
    else Summaries(paths[..|paths| - 1], fs) + [Summary(paths[|paths| - 1], fs)]
  }

  /** The i-th per-file line reports the i-th path found. */
  lemma {:induction false} SummariesAt(paths: seq<Path>, fs: Path -> FileRead, i: nat)
    requires i < |paths|
    ensures Summaries(paths, fs)[i] == Summary(paths[i], fs)
  {
    var n := |paths| - 1;
    if i < n {
      SummariesAt(paths[..n], fs, i);
      assert paths[..n][i] == paths[i];
    } else {
      assert i == n;
    }
  }

  /** The loop of `main` over the files found: extract each file's names and union them. */
  method ReadAll(envFiles: seq<Path>, fs: Path -> FileRead) returns (allVars: set<string>, files: seq<FileSummary>)
    ensures allVars == AllDeclared(envFiles, fs)
    ensures files == Summaries(envFiles, fs)
  {
    allVars := {};
    files := [];
    for i := 0 to |envFiles|
      invariant allVars == AllDeclared(envFiles[..i], fs)
      invariant files == Summaries(envFiles[..i], fs)
    {
      var path := envFiles[i];
      var fileVars := ExtractVarsFromFile(fs(path));
      assert envFiles[..i + 1][..i] == envFiles[..i];
      allVars := allVars + fileVars;
      files := files + [FileSummary(path, |fileVars|, fs(path).error)];
    }
    assert envFiles[..|envFiles|] == envFiles;
  }

  /**
   * The whole run. `walk` stands for what `os.walk('.')` yields, `fs` for the
   * contents of each file as read, `env` for `os.environ`; `status` is what
   * `main` returns, `None` when no file was found.
   */
  method RunDetective(walk: seq<WalkEntry>, fs: Path -> FileRead, env: map<string, string>)
    returns (report: Report, status: Option<int>)
    ensures report == NoFilesFound <==> Selected(walk) == []
    ensures report == NoFilesFound ==> status == None
    ensures report.CaseReport? ==> status.Some?
    ensures report.CaseReport? ==> report.files == Summaries(Selected(walk), fs)
    ensures report.CaseReport? ==>
      var declared := AllDeclared(Selected(walk), fs);
      && report.uniqueCount == |declared|
      && report.presentCount == |declared * env.Keys|
      && StrictlySorted(report.missing) && Elems(report.missing) == declared - env.Keys
    ensures report.CaseReport? ==>
      IsPreview(AllDeclared(Selected(walk), fs) * env.Keys, report.preview, report.more)
    ensures ExitCode(status) == (if AllDeclared(Selected(walk), fs) <= env.Keys then 0 else 1)
  {
    var envFiles := FindEnvFiles(walk);
    if |envFiles| == 0 {
      report, status := NoFilesFound, None;
      return;
    }
    var allVars, files := ReadAll(envFiles, fs);
    var present, missing := CheckOsEnv(allVars, env);
    SortedDistinct(present);
    var (shown, more) := Preview(present);
    PreviewOfSorted(present, allVars * env.Keys);
    report := CaseReport(files, |allVars|, |present|, shown, more, missing);
    MissingDecidesStatus(allVars, env, missing);
    if |missing| > 0 {
      status := Some(1);
    } else {
      status := Some(0);
    }
  }

  /** The missing list is empty exactly when the environment sets every declared name. */
  lemma MissingDecidesStatus(vars: set<string>, env: map<string, string>, missing: seq<string>)
    requires Elems(missing) == vars - env.Keys
    ensures |missing| > 0 <==> !(vars <= env.Keys)
  {
    if |missing| > 0 {
      assert missing[0] in Elems(missing);
      assert missing[0] in vars && missing[0] !in env.Keys;
    } else {
      assert Elems(missing) == {};
      forall x | x in vars
        ensures x in env.Keys
      {
        assert x !in vars - env.Keys;
      }
    }
  }

  /**
   * `shown` lists the smallest names of `present` in ascending order, as many as
   * the limit allows, and `more` counts the rest exactly when some are left out.
   */
  ghost predicate IsPreview(present: set<string>, shown: seq<string>, more: Option<nat>)
  {
    && StrictlySorted(shown) && Elems(shown) <= present
    && |shown| == (if |present| < PreviewLimit then |present| else PreviewLimit)
    && (forall x, y :: x in shown && y in present - Elems(shown) ==> Less(x, y))
    && more == (if |present| > PreviewLimit then Some(|present| - PreviewLimit) else None)
  }

  /** Previewing the sorted list of present names gives the smallest ones. */
  lemma PreviewOfSorted(sorted: seq<string>, present: set<string>)
    requires StrictlySorted(sorted) && Elems(sorted) == present
    ensures IsPreview(present, Preview(sorted).0, Preview(sorted).1)
  {
    SortedDistinct(sorted);
    var shown := Preview(sorted).0;
    forall i, j | 0 <= i < j < |shown|
      ensures Less(shown[i], shown[j])
    {
      assert shown[i] == sorted[i] && shown[j] == sorted[j];
    }
    forall x, y | x in shown && y in present - Elems(shown)
      ensures Less(x, y)
    {
      var a :| 0 <= a < |shown| && shown[a] == x;
      var b :| 0 <= b < |sorted| && sorted[b] == y;
      assert forall c :: 0 <= c < |shown| ==> sorted[c] in Elems(shown);
    }
  }

  /** Every name in the union comes from some file found. */
  lemma {:induction false} AllDeclaredSound(paths: seq<Path>, fs: Path -> FileRead, k: string)
    requires k in AllDeclared(paths, fs)
    ensures exists i :: 0 <= i < |paths| && k in DeclaredKeys(fs(paths[i]).lines)
  {
    var n := |paths| - 1;
    var init := paths[..n];
    if k in AllDeclared(init, fs) {
      AllDeclaredSound(init, fs, k);
      var i :| 0 <= i < |init| && k in DeclaredKeys(fs(init[i]).lines);
      assert init[i] == paths[i];
    } else {
      assert k in DeclaredKeys(fs(paths[n]).lines);
    }
  }

  /** Every name any found file declares is in the union. */
  lemma {:induction false} AllDeclaredComplete(paths: seq<Path>, fs: Path -> FileRead, i: nat, k: string)
    requires i < |paths| && k in DeclaredKeys(fs(paths[i]).lines)
    ensures k in AllDeclared(paths, fs)
  {
    var n := |paths| - 1;
    var init := paths[..n];
    assert AllDeclared(paths, fs) == AllDeclared(init, fs) + DeclaredKeys(fs(paths[n]).lines);
    if i < n {
      assert init[i] == paths[i];
      AllDeclaredComplete(init, fs, i, k);
    } else {
      assert i == n;
    }
  }
}
