/** Finding the Intlayer project a file belongs to: walking up from a
    directory to the first one whose package.json depends on `intlayer`
    (src/utils/findProjectRoot.ts, with a memo table), and the older walk to
    the first directory holding both package.json and .intlayer
    (src/findProjectRoot.ts). The file system is an oracle: `pkg(d)` is the
    parsed package.json of directory `d`, `None` when it is missing or
    invalid; `onDisk(p)` says whether path `p` exists. */
module ProjectRoot {
  import opened Wrappers
  import opened Paths
  import opened Content

  /** The walk goes on while the directory is non-empty, not a root, and
      not shorter than the workspace folder. */
  predicate Continues(dir: string, minLen: nat) {
    dir != "" && dir != Dirname(dir) && |dir| >= minLen
  }

  /** `repoDir?.length ?? 0`. */
  function MinLength(repoDir: Option<string>): nat {
    if repoDir.Some? then |repoDir.value| else 0
  }

  /** The first directory of the walk from `dir` that satisfies `p`. */
  function FirstMatch(dir: string, minLen: nat, p: string -> bool): (r: Option<string>)
    decreases DirMeasure(dir)
    ensures r.Some? ==> p(r.value) && Continues(r.value, minLen) && |r.value| <= |dir|
    ensures Continues(dir, minLen) && p(dir) ==> r == Some(dir)
    ensures !Continues(dir, minLen) ==> r.None?
  {
    if !Continues(dir, minLen) then None
    else if p(dir) then Some(dir)
    else
      DirnameDecreases(dir);
      FirstMatch(Dirname(dir), minLen, p)
  }

  /** The directories the walk from `dir` visits, in order. */
  function Visited(dir: string, minLen: nat): (r: seq<string>)
    decreases DirMeasure(dir)
    ensures forall i :: 0 <= i < |r| ==> Continues(r[i], minLen)
  {
    if !Continues(dir, minLen) then []
    else
      DirnameDecreases(dir);
      [dir] + Visited(Dirname(dir), minLen)
  }

  /** No directory of `ds` before position `n` satisfies `p`. */
  predicate NoneBefore(ds: seq<string>, n: nat, p: string -> bool) {
    forall j :: 0 <= j < n && j < |ds| ==> !p(ds[j])
  }

  /** `FirstMatch` answers nothing exactly when no visited directory
      qualifies. */
  lemma {:induction false} FirstMatchNoneIff(dir: string, minLen: nat, p: string -> bool)
    decreases DirMeasure(dir)
    ensures FirstMatch(dir, minLen, p).None? <==> NoneBefore(Visited(dir, minLen), |Visited(dir, minLen)|, p)
  {
    var ds := Visited(dir, minLen);
    if !Continues(dir, minLen) {
      assert ds == [];
    } else if p(dir) {
      assert ds[0] == dir && p(ds[0]);
    } else {
      DirnameDecreases(dir);
      var rest := Visited(Dirname(dir), minLen);
      FirstMatchNoneIff(Dirname(dir), minLen, p);
      assert ds == [dir] + rest;
      NoneBeforeCons(dir, rest, |rest|, p);
    }
  }

  /** What `FirstMatch` answers is the first visited directory that
      qualifies. */
  lemma {:induction false} FirstMatchIsFirst(dir: string, minLen: nat, p: string -> bool)
    decreases DirMeasure(dir)
    ensures FirstMatch(dir, minLen, p).Some? ==>
              exists i :: 0 <= i < |Visited(dir, minLen)| && Visited(dir, minLen)[i] == FirstMatch(dir, minLen, p).value
                          && NoneBefore(Visited(dir, minLen), i, p)
  {
    var ds := Visited(dir, minLen);
    var r := FirstMatch(dir, minLen, p);
    if Continues(dir, minLen) && p(dir) {
      assert ds[0] == dir;
      assert NoneBefore(ds, 0, p);
    } else if Continues(dir, minLen) {
      DirnameDecreases(dir);
      var rest := Visited(Dirname(dir), minLen);
      FirstMatchIsFirst(Dirname(dir), minLen, p);
      assert ds == [dir] + rest;
      assert r == FirstMatch(Dirname(dir), minLen, p);
      if r.Some? {
        var i :| 0 <= i < |rest| && rest[i] == r.value && NoneBefore(rest, i, p);
        assert ds[i + 1] == r.value;
        NoneBeforeCons(dir, rest, i, p);
      }
    }
  }

  /** A directory that does not qualify, put in front, shifts the positions. */
  lemma NoneBeforeCons(x: string, rest: seq<string>, n: nat, p: string -> bool)
    requires !p(x)
    ensures NoneBefore([x] + rest, n + 1, p) <==> NoneBefore(rest, n, p)
  {
    var ds := [x] + rest;
    if NoneBefore(rest, n, p) {
      forall j | 0 <= j < n + 1 && j < |ds|
        ensures !p(ds[j])
      {
        if j > 0 { assert ds[j] == rest[j - 1]; }
      }
    }
    if NoneBefore(ds, n + 1, p) {
      forall k | 0 <= k < n && k < |rest|
        ensures !p(rest[k])
      {
        assert rest[k] == ds[k + 1];
      }
    }
  }

  /** `packageJson?.dependencies?.intlayer || …devDependencies… || …peerDependencies…`. */
  predicate ListsIntlayer(pkg: Json) {
    Truthy(Member(Member(pkg, "dependencies"), "intlayer"))
    || Truthy(Member(Member(pkg, "devDependencies"), "intlayer"))
    || Truthy(Member(Member(pkg, "peerDependencies"), "intlayer"))
  }

  predicate IsIntlayerProject(pkg: string -> Option<Json>, dir: string) {
    pkg(dir).Some? && ListsIntlayer(pkg(dir).value)
  }

  /** What the walk from `dir` answers, without a memo table: the first
      Intlayer project, else the workspace folder. */
  function Answer(dir: string, repoDir: Option<string>, pkg: string -> Option<Json>): Option<string> {
    match FirstMatch(dir, MinLength(repoDir), d => IsIntlayerProject(pkg, d))
    case Some(root) => Some(root)
    case None => repoDir
  }

  /** A memo table every entry of which is the memo-free answer. */
  predicate Sound(memo: map<string, Option<string>>, repoDir: Option<string>, pkg: string -> Option<Json>) {
    forall d :: d in memo ==> memo[d] == Answer(d, repoDir, pkg)
  }

  datatype Found = Found(root: Option<string>, memo: map<string, Option<string>>)

  /** The loop of `findProjectRoot`, from `dir`, for the walk that started at `start`. */
  function Walk(dir: string, start: string, repoDir: Option<string>, memo: map<string, Option<string>>,
                pkg: string -> Option<Json>): (r: Found)
    decreases DirMeasure(dir)
    ensures start in r.memo && r.memo[start] == r.root
    ensures forall d :: d in r.memo && d != start && (d !in memo || r.memo[d] != memo[d]) ==>
              r.root == Some(d) && IsIntlayerProject(pkg, d)
    ensures forall d :: d in memo ==> d in r.memo
  {
    if !Continues(dir, MinLength(repoDir)) then Found(repoDir, memo[start := repoDir])
    else if dir in memo then Found(memo[dir], memo[start := memo[dir]])
    else if IsIntlayerProject(pkg, dir) then Found(Some(dir), memo[start := Some(dir)][dir := Some(dir)])
    else
      DirnameDecreases(dir);
      Walk(Dirname(dir), start, repoDir, memo, pkg)
  }

  /** `findProjectRoot(startPath)` with the active editor's file and the
      workspace folder given. */
  function FindProjectRoot(memo: map<string, Option<string>>, startPath: Option<string>, activeFile: Option<string>,
                           repoDir: Option<string>, pkg: string -> Option<Json>): (r: Found)
    ensures var start := if startPath.Some? then startPath.value else activeFile.GetOr("");
            (start == "" ==> r == Found(None, memo))
            && (start != "" && start in memo ==> r == Found(memo[start], memo))
            && (start != "" ==> start in r.memo && r.memo[start] == r.root)
  {
    var start := if startPath.Some? then startPath.value else activeFile.GetOr("");
    if start == "" then Found(None, memo)
    else if start in memo then Found(memo[start], memo)
    else Walk(start, start, repoDir, memo, pkg)
  }

  /** The walk keeps a sound memo table sound and answers as if it had none:
      from a directory the walk from `start` reached without finding a
      project, the answer is the one for `start`. */
  lemma {:induction false} WalkSound(dir: string, start: string, repoDir: Option<string>,
                                     memo: map<string, Option<string>>, pkg: string -> Option<Json>)
    requires Sound(memo, repoDir, pkg)
    requires Answer(dir, repoDir, pkg) == Answer(start, repoDir, pkg)
    ensures Walk(dir, start, repoDir, memo, pkg).root == Answer(start, repoDir, pkg)
    ensures Sound(Walk(dir, start, repoDir, memo, pkg).memo, repoDir, pkg)
    decreases DirMeasure(dir)
  {
    var p := d => IsIntlayerProject(pkg, d);
    var w := Walk(dir, start, repoDir, memo, pkg);
    if !Continues(dir, MinLength(repoDir)) {
      assert Answer(dir, repoDir, pkg) == repoDir by {
        assert FirstMatch(dir, MinLength(repoDir), p).None?;
      }
      assert w == Found(repoDir, memo[start := repoDir]);
      SoundUpdate(memo, start, repoDir, repoDir, pkg);
    } else if dir in memo {
      assert w == Found(memo[dir], memo[start := memo[dir]]);
      SoundUpdate(memo, start, memo[dir], repoDir, pkg);
    } else if IsIntlayerProject(pkg, dir) {
      assert Answer(dir, repoDir, pkg) == Some(dir) by {
        assert FirstMatch(dir, MinLength(repoDir), p) == Some(dir);
      }
      assert w == Found(Some(dir), memo[start := Some(dir)][dir := Some(dir)]);
      SoundUpdate(memo, start, Some(dir), repoDir, pkg);
      SoundUpdate(memo[start := Some(dir)], dir, Some(dir), repoDir, pkg);
    } else {
      DirnameDecreases(dir);
      assert Answer(Dirname(dir), repoDir, pkg) == Answer(dir, repoDir, pkg) by {
        assert FirstMatch(dir, MinLength(repoDir), p) == FirstMatch(Dirname(dir), MinLength(repoDir), p);
      }
      assert w == Walk(Dirname(dir), start, repoDir, memo, pkg);
      WalkSound(Dirname(dir), start, repoDir, memo, pkg);
    }
  }

  /** Recording the memo-free answer keeps a memo table sound. */
  lemma SoundUpdate(memo: map<string, Option<string>>, d: string, v: Option<string>, repoDir: Option<string>,
                    pkg: string -> Option<Json>)
    requires Sound(memo, repoDir, pkg) && v == Answer(d, repoDir, pkg)
    ensures Sound(memo[d := v], repoDir, pkg)
  {
  }

  /** With a sound memo table, the memoised search answers what the walk
      without memo answers, and leaves the table sound. */
  lemma MemoIsTransparent(memo: map<string, Option<string>>, start: string, repoDir: Option<string>,
                          pkg: string -> Option<Json>)
    requires Sound(memo, repoDir, pkg) && start != ""
    ensures FindProjectRoot(memo, Some(start), None, repoDir, pkg).root == Answer(start, repoDir, pkg)
    ensures Sound(FindProjectRoot(memo, Some(start), None, repoDir, pkg).memo, repoDir, pkg)
  {
    if start !in memo {
      WalkSound(start, start, repoDir, memo, pkg);
    }
  }

  /** Asking again for the same start answers from the memo table. */
  lemma AskingAgainHits(memo: map<string, Option<string>>, start: string, repoDir: Option<string>,
                        pkg: string -> Option<Json>)
    requires start != ""
    ensures var r := FindProjectRoot(memo, Some(start), None, repoDir, pkg);
            FindProjectRoot(r.memo, Some(start), None, repoDir, pkg) == Found(r.root, r.memo)
  {
  }

  // ---- The older, memo-free walk ----

  predicate HasIntlayerFiles(onDisk: string -> bool, dir: string) {
    onDisk(Join(dir, "package.json")) && onDisk(Join(dir, ".intlayer"))
  }

  /** `findProjectRoot` of src/findProjectRoot.ts: the first directory of
      the walk holding package.json and .intlayer; nothing otherwise (not
      the workspace folder). */
  function FindProjectRootOld(startPath: Option<string>, activeFile: Option<string>, repoDir: Option<string>,
                              onDisk: string -> bool): (r: Option<string>)
    ensures r.Some? ==> HasIntlayerFiles(onDisk, r.value) && Continues(r.value, MinLength(repoDir))
    ensures var start := if startPath.Some? then startPath.value else activeFile.GetOr("");
            Continues(start, MinLength(repoDir)) && HasIntlayerFiles(onDisk, start) ==> r == Some(start)
  {
    var start := if startPath.Some? then startPath.value else activeFile.GetOr("");
    FirstMatch(start, MinLength(repoDir), d => HasIntlayerFiles(onDisk, d))
  }
}
