/** The dictionary tree view (src/explorer/dictionaryExplorer.ts): projects
    at the root, their dictionary files below, and below each dictionary the
    source files that declare it. The search query, the reorder of file
    paths under a search and the parent of each node are modelled; the
    configuration, the directory listing and the file contents are
    parameters. */
module Explorer {
  import opened Wrappers
  import opened Text
  import Lists
  import Paths

  /** A tree node. `title` is the source's `label`. */
  datatype Node =
    | EnvironmentNode(title: string, projectDir: string, dir: string)
    | DictionaryNode(key: string, jsonPath: string, projectDir: string, envLabel: string)
    | FileNode(filePath: string, projectDir: string, dictionaryJsonPath: string)

  /** A project as cached by the root level: its directory, the directory
      of its dictionary files, their names and its label. */
  datatype Env = Env(projectDir: string, dir: string, files: seq<string>, title: string)

  // ---- The search query ----

  /** `setSearchQuery`: the trimmed query, or nothing when it is blank. */
  function NormalizeQuery(query: Option<string>): (r: Option<string>)
    ensures r.Some? ==> r.value != "" && !IsSpace(r.value[0]) && !IsSpace(r.value[|r.value| - 1])
    ensures query.None? ==> r.None?
    ensures query.Some? && (forall i :: 0 <= i < |query.value| ==> IsSpace(query.value[i])) ==> r.None?
  {
    if query.Some? && Trim(query.value) != "" then Some(Trim(query.value)) else None
  }

  /** `getSearchQuery`. */
  function QueryText(stored: Option<string>): (r: string)
    ensures stored.Some? ==> r == stored.value
    ensures stored.None? ==> r == ""
  {
    stored.GetOr("")
  }

  /** Text without surrounding white space trims to itself. */
  lemma TrimmedIsFixed(s: string)
    requires s == "" || (!IsSpace(s[0]) && !IsSpace(s[|s| - 1]))
    ensures Trim(s) == s
  {
  }

  /** Setting the query the view reports leaves it as it is: the stored
      query is already normalised. */
  lemma QueryRoundTrip(query: Option<string>)
    ensures var stored := NormalizeQuery(query);
            NormalizeQuery(Some(QueryText(stored))) == stored
  {
    var stored := NormalizeQuery(query);
    if stored.Some? {
      TrimmedIsFixed(stored.value);
    }
  }

  // ---- The root level ----

  predicate IsJsonName(f: string) { Paths.ExtName(f) == ".json" }

  /** The dictionary files of a listing: the `.json` names, sorted. */
  function JsonFiles(listing: seq<string>): (r: seq<string>)
    ensures Lists.Sorted(r)
    ensures multiset(r) == multiset(Lists.Filter(listing, IsJsonName))
    ensures forall i :: 0 <= i < |r| ==> IsJsonName(r[i]) && r[i] in listing
  {
    var kept := Lists.Filter(listing, IsJsonName);
    var r := Lists.Sort(kept);
    assert forall i :: 0 <= i < |r| ==> r[i] in multiset(kept);
    r
  }

  /** The label of a project: its package name when that is a non-empty
      string, else the directory's base name. */
  function ProjectTitle(projectDir: string, packageName: Option<string>): (r: string)
    ensures packageName.Some? && packageName.value != "" ==> r == packageName.value
    ensures !(packageName.Some? && packageName.value != "") ==> r == Paths.Basename(projectDir)
  {
    if packageName.Some? && packageName.value != "" then packageName.value else Paths.Basename(projectDir)
  }

  /** One project of the root level: the dictionary directory falls back to
      the project directory, and a directory that does not exist has no
      files. `listing(d)` is what `readdirSync(d)` gives. */
  function EnvOf(projectDir: string, unmergedDictionariesDir: Option<string>, onDisk: string -> bool,
                 listing: string -> seq<string>, packageName: Option<string>): (r: Env)
    ensures r.projectDir == projectDir && r.dir == unmergedDictionariesDir.GetOr(projectDir)
    ensures !onDisk(r.dir) ==> r.files == []
    ensures onDisk(r.dir) ==> r.files == JsonFiles(listing(r.dir))
    ensures r.title == ProjectTitle(projectDir, packageName)
  {
    var dir := unmergedDictionariesDir.GetOr(projectDir);
    Env(projectDir, dir, if onDisk(dir) then JsonFiles(listing(dir)) else [], ProjectTitle(projectDir, packageName))
  }

  function EnvNode(e: Env): Node {
    EnvironmentNode(e.title, e.projectDir, e.dir)
  }

  /** As written, the root level calls `findAllProjectRoots()` without
      awaiting it: the promise's `length` is undefined, so the root level is
      always empty and no project is ever cached. */
  function RootChildrenAsWritten(envs: seq<Env>): (r: seq<Node>)
    ensures |r| <= |envs|
  {
    []
  }

  /** Whatever projects the workspace holds, the root level as written
      shows none, where the awaited roots would show one node each. */
  lemma RootAlwaysEmpty(envs: seq<Env>)
    requires |envs| > 0
    ensures RootChildrenAsWritten(envs) == [] && |RootChildren(envs)| == |envs|
  {
  }

  /** The root level once the roots are awaited: one environment node per
      project, in order. */
  function RootChildren(envs: seq<Env>): (r: seq<Node>)
    ensures |r| == |envs|
    ensures forall i :: 0 <= i < |r| ==> r[i].EnvironmentNode? && r[i].projectDir == envs[i].projectDir
                                         && r[i].dir == envs[i].dir && r[i].title == envs[i].title
  {
    seq(|envs|, i requires 0 <= i < |envs| => EnvNode(envs[i]))
  }

  // ---- The environment level ----

  /** `cachedEnvironments.find(e => e.projectDir === projectDir)`. */
  function FindEnv(envs: seq<Env>, projectDir: string): (r: Option<Env>)
    ensures r.Some? ==> exists i :: 0 <= i < |envs| && envs[i] == r.value && r.value.projectDir == projectDir
                                    && forall j :: 0 <= j < i ==> envs[j].projectDir != projectDir
    ensures r.None? <==> forall j :: 0 <= j < |envs| ==> envs[j].projectDir != projectDir
  {
    if envs == [] then None
    else if envs[0].projectDir == projectDir then Some(envs[0])
    else
      var r := FindEnv(envs[1..], projectDir);
      assert forall j :: 1 <= j < |envs| ==> envs[j] == envs[1..][j - 1];
      r
  }

  /** The dictionary key of a file: its base name without `.json`. */
  function KeyOf(file: string): string {
    Paths.BasenameWithout(file, ".json")
  }

  /** A dictionary file kept by a search for `lowered`: its key matches, or
      the text of the file does (`contentOf(p)` is the re-serialised JSON
      of the file at `p`, its raw text when that does not parse, and `None`
      when it cannot be read). */
  predicate KeptBySearch(dir: string, file: string, lowered: string, contentOf: string -> Option<string>) {
    Contains(Lower(KeyOf(file)), lowered)
    || (contentOf(Paths.Join(dir, file)).Some? && Contains(Lower(contentOf(Paths.Join(dir, file)).value), lowered))
  }

  function KeptIn(dir: string, lowered: string, contentOf: string -> Option<string>): string -> bool {
    f => KeptBySearch(dir, f, lowered, contentOf)
  }

  function DictNode(e: Env, file: string): Node {
    DictionaryNode(KeyOf(file), Paths.Join(e.dir, file), e.projectDir, e.title)
  }

  function DictNodes(e: Env, files: seq<string>): (r: seq<Node>)
    ensures |r| == |files| && forall i :: 0 <= i < |r| ==> r[i] == DictNode(e, files[i])
  {
    seq(|files|, i requires 0 <= i < |files| => DictNode(e, files[i]))
  }

  /** The children of an environment node: its cached project's dictionary
      files, only those a search keeps when there is a query. */
  function EnvChildren(envs: seq<Env>, projectDir: string, query: Option<string>,
                       contentOf: string -> Option<string>): (r: seq<Node>)
    ensures FindEnv(envs, projectDir).None? ==> r == []
    ensures FindEnv(envs, projectDir).Some? && query.None? ==>
              r == DictNodes(FindEnv(envs, projectDir).value, FindEnv(envs, projectDir).value.files)
    ensures FindEnv(envs, projectDir).Some? && query.Some? ==>
              var e := FindEnv(envs, projectDir).value;
              r == DictNodes(e, Lists.Filter(e.files, KeptIn(e.dir, Lower(query.value), contentOf)))
  {
    match FindEnv(envs, projectDir)
    case None => []
    case Some(e) =>
      var files := if query.Some? then Lists.Filter(e.files, KeptIn(e.dir, Lower(query.value), contentOf)) else e.files;
      DictNodes(e, files)
  }

  /** Under a search, a dictionary whose key contains the query (in any
      case) is listed, whatever its contents. */
  lemma MatchingKeyListed(e: Env, file: string, query: string, contentOf: string -> Option<string>)
    requires file in e.files && Contains(Lower(KeyOf(file)), Lower(query))
    ensures DictNode(e, file) in EnvChildren([e], e.projectDir, Some(query), contentOf)
  {
    var kept := Lists.Filter(e.files, KeptIn(e.dir, Lower(query), contentOf));
    assert KeptIn(e.dir, Lower(query), contentOf)(file);
    var k :| 0 <= k < |kept| && kept[k] == file;
    assert EnvChildren([e], e.projectDir, Some(query), contentOf)[k] == DictNode(e, file);
  }

  // ---- The dictionary level ----

  /** A path matching the lowered query. */
  function PathMatches(lowered: string): string -> bool {
    p => Contains(Lower(p), lowered)
  }

  /** The file paths shown under a dictionary: the string `filePath`s of
      its entries, matching ones first under a search, without duplicates. */
  function FilePaths(paths: seq<string>, query: Option<string>): (r: seq<string>)
    ensures Lists.Distinct(r)
    ensures forall p :: p in r <==> p in paths
    ensures query.None? ==> r == Lists.Dedupe(paths)
  {
    var matches := PathMatches(Lower(query.GetOr("")));
    var ordered := if query.Some? then Lists.StablePartition(paths, matches) else paths;
    assert forall p :: p in ordered <==> p in paths by { Lists.PartitionMembers(paths, matches); }
    Lists.Dedupe(ordered)
  }

  /** Under a search, every matching path is shown before every other one. */
  lemma MatchingPathsFirst(paths: seq<string>, query: string, i: nat, j: nat)
    requires i < j < |FilePaths(paths, Some(query))|
    requires PathMatches(Lower(query))(FilePaths(paths, Some(query))[j])
    ensures PathMatches(Lower(query))(FilePaths(paths, Some(query))[i])
  {
    Lists.DedupeKeepsPartition(paths, PathMatches(Lower(query)));
  }

  function FileNodes(paths: seq<string>, projectDir: string, jsonPath: string): (r: seq<Node>)
    ensures |r| == |paths|
    ensures forall i :: 0 <= i < |r| ==> r[i] == FileNode(paths[i], projectDir, jsonPath)
  {
    seq(|paths|, i requires 0 <= i < |paths| => FileNode(paths[i], projectDir, jsonPath))
  }

  /** The children of a dictionary node. `entries` is, for each truthy entry
      of the dictionary file, its `filePath` when that is a string; `None`
      when the file cannot be read or parsed (a warning, no children). */
  function DictionaryChildren(d: Node, entries: Option<seq<Option<string>>>, query: Option<string>): (r: seq<Node>)
    requires d.DictionaryNode?
    ensures entries.None? ==> r == []
    ensures entries.Some? ==> r == FileNodes(FilePaths(Somes(entries.value), query), d.projectDir, d.jsonPath)
  {
    match entries
    case None => []
    case Some(es) => FileNodes(FilePaths(Somes(es), query), d.projectDir, d.jsonPath)
  }

  // ---- Parents ----

  /** `getParent`: a file's dictionary (the label from the cached project,
      else the directory's base name), a dictionary's cached project, and
      nothing above a project. */
  function GetParent(n: Node, envs: seq<Env>): (r: Option<Node>)
    ensures n.EnvironmentNode? ==> r.None?
    ensures n.FileNode? ==> r.Some? && r.value.DictionaryNode? && r.value.jsonPath == n.dictionaryJsonPath
                            && r.value.key == KeyOf(n.dictionaryJsonPath) && r.value.projectDir == n.projectDir
    ensures n.DictionaryNode? ==> (r.Some? <==> FindEnv(envs, n.projectDir).Some?)
  {
    match n
    case FileNode(_, projectDir, jsonPath) =>
      var title := (match FindEnv(envs, projectDir)
                    case Some(e) => e.title
                    case None => Paths.Basename(projectDir));
      Some(DictionaryNode(KeyOf(jsonPath), jsonPath, projectDir, title))
    case DictionaryNode(_, _, projectDir, _) =>
      (match FindEnv(envs, projectDir)
       case Some(e) => Some(EnvNode(e))
       case None => None)
    case EnvironmentNode(_, _, _) => None
  }

  /** A dictionary listed under a cached project has that project as parent,
      the first cached one with its directory. */
  lemma DictionaryParentIsItsEnv(envs: seq<Env>, projectDir: string, query: Option<string>,
                                 contentOf: string -> Option<string>, i: nat)
    requires i < |EnvChildren(envs, projectDir, query, contentOf)|
    ensures FindEnv(envs, projectDir).Some?
    ensures GetParent(EnvChildren(envs, projectDir, query, contentOf)[i], envs) == Some(EnvNode(FindEnv(envs, projectDir).value))
  {
    var e := FindEnv(envs, projectDir).value;
    assert EnvChildren(envs, projectDir, query, contentOf)[i].projectDir == e.projectDir;
  }

  /** A file listed under a dictionary of a cached project has a parent
      with the dictionary's file, project and label. */
  lemma FileParentIsItsDictionary(envs: seq<Env>, d: Node, entries: Option<seq<Option<string>>>, query: Option<string>, i: nat)
    requires d.DictionaryNode? && i < |DictionaryChildren(d, entries, query)|
    requires FindEnv(envs, d.projectDir).Some? && FindEnv(envs, d.projectDir).value.title == d.envLabel
    ensures var p := GetParent(DictionaryChildren(d, entries, query)[i], envs);
            p.Some? && p.value.jsonPath == d.jsonPath && p.value.projectDir == d.projectDir && p.value.envLabel == d.envLabel
  {
  }

  // ---- Revealing a file ----

  /** The dictionary file `file` of `e` reads and lists `rel` as the
      `filePath` of one of its entries. */
  predicate Mentions(e: Env, rel: string, file: string, entriesAt: string -> Option<seq<Option<string>>>) {
    var es := entriesAt(Paths.Join(e.dir, file));
    es.Some? && Some(rel) in es.value
  }

  /** The files of one project, in order: the first dictionary file whose
      entries mention `rel` as a `filePath`. `entriesAt` is as for
      `DictionaryChildren`. */
  function FindInFiles(e: Env, rel: string, files: seq<string>, entriesAt: string -> Option<seq<Option<string>>>): (r: Option<Node>)
    ensures r.None? <==> forall i :: 0 <= i < |files| ==> !Mentions(e, rel, files[i], entriesAt)
    ensures r.Some? ==> exists i :: 0 <= i < |files| && Mentions(e, rel, files[i], entriesAt)
                                    && r.value == FileNode(rel, e.projectDir, Paths.Join(e.dir, files[i]))
                                    && forall j :: 0 <= j < i ==> !Mentions(e, rel, files[j], entriesAt)
    ensures r.Some? ==> entriesAt(r.value.dictionaryJsonPath).Some? && Some(rel) in entriesAt(r.value.dictionaryJsonPath).value
  {
    if files == [] then None
    else
      var jsonPath := Paths.Join(e.dir, files[0]);
      var es := entriesAt(jsonPath);
      if es.Some? && Some(rel) in es.value then
        assert Mentions(e, rel, files[0], entriesAt);
        Some(FileNode(rel, e.projectDir, jsonPath))
      else
        var r := FindInFiles(e, rel, files[1..], entriesAt);
        assert forall i :: 1 <= i < |files| ==> files[i] == files[1..][i - 1];
        assert !Mentions(e, rel, files[0], entriesAt);
        r
  }

  /** What one project answers: nothing when the path lies outside it,
      else the first of its dictionary files that lists the path relative
      to the project. */
  function NodeIn(e: Env, absolutePath: string, entriesAt: string -> Option<seq<Option<string>>>): (r: Option<Node>)
    ensures StartsWith(Paths.Relative(e.projectDir, absolutePath), "..") ==> r.None?
    ensures r.Some? ==> r.value.FileNode? && r.value.projectDir == e.projectDir
                        && r.value.filePath == Paths.Relative(e.projectDir, absolutePath)
                        && !StartsWith(r.value.filePath, "..")
                        && entriesAt(r.value.dictionaryJsonPath).Some?
                        && Some(r.value.filePath) in entriesAt(r.value.dictionaryJsonPath).value
  {
    var rel := Paths.Relative(e.projectDir, absolutePath);
    if StartsWith(rel, "..") then None else FindInFiles(e, rel, e.files, entriesAt)
  }

  /** The first element's answer, in order, skipping elements that give
      none: the loop with an early `return` that the search below runs. */
  function FirstHit<E, N>(xs: seq<E>, f: E -> Option<N>): (r: Option<N>)
    ensures r.None? <==> forall i :: 0 <= i < |xs| ==> f(xs[i]).None?
    ensures r.Some? ==> exists i :: 0 <= i < |xs| && r == f(xs[i]) && forall j :: 0 <= j < i ==> f(xs[j]).None?
  {
    if xs == [] then None
    else if f(xs[0]).Some? then f(xs[0])
    else
      var r := FirstHit(xs[1..], f);
      FirstHitStep(xs, f, r);
      r
  }

  /** The step of `FirstHit` past an element that gives nothing: the first
      hit among the rest is the first in the whole list. */
  lemma {:induction false} FirstHitStep<E, N>(xs: seq<E>, f: E -> Option<N>, r: Option<N>)
    requires xs != [] && f(xs[0]).None?
    requires r.None? <==> forall i :: 0 <= i < |xs| - 1 ==> f(xs[1..][i]).None?
    requires r.Some? ==> exists i :: 0 <= i < |xs| - 1 && r == f(xs[1..][i])
                                     && forall j :: 0 <= j < i ==> f(xs[1..][j]).None?
    ensures r.None? <==> forall i :: 0 <= i < |xs| ==> f(xs[i]).None?
    ensures r.Some? ==> exists i :: 0 <= i < |xs| && r == f(xs[i]) && forall j :: 0 <= j < i ==> f(xs[j]).None?
  {
    var rest := xs[1..];
    assert forall i :: 1 <= i < |xs| ==> xs[i] == rest[i - 1];
    if r.Some? {
      var i :| 0 <= i < |rest| && r == f(rest[i]) && forall j :: 0 <= j < i ==> f(rest[j]).None?;
      assert xs[i + 1] == rest[i];
      assert forall j :: 0 <= j < i + 1 ==> f(xs[j]).None?;
    }
  }

  /** `findFileNodeByAbsolutePath`: the projects in order, skipping those
      the path lies outside of; the first project that holds the path
      answers, with its first file that lists it. */
  function FindFileNode(envs: seq<Env>, absolutePath: string, entriesAt: string -> Option<seq<Option<string>>>): (r: Option<Node>)
    ensures r.Some? ==> r.value.FileNode? && !StartsWith(r.value.filePath, "..")
    ensures r.Some? ==> exists i :: 0 <= i < |envs| && r.value.projectDir == envs[i].projectDir
                                    && r.value.filePath == Paths.Relative(envs[i].projectDir, absolutePath)
    ensures r.Some? ==> entriesAt(r.value.dictionaryJsonPath).Some? && Some(r.value.filePath) in entriesAt(r.value.dictionaryJsonPath).value
    ensures r.None? <==> forall i :: 0 <= i < |envs| ==> NodeIn(envs[i], absolutePath, entriesAt).None?
    ensures r.Some? ==> exists i :: 0 <= i < |envs| && r == NodeIn(envs[i], absolutePath, entriesAt)
                                    && forall j :: 0 <= j < i ==> NodeIn(envs[j], absolutePath, entriesAt).None?
  {
    var r := FirstHit(envs, e => NodeIn(e, absolutePath, entriesAt));
    HitIsListedFile(envs, absolutePath, entriesAt, r);
    r
  }

  /** What one of the projects answers is a file node of that project, with
      the path relative to it, listed by its dictionary file. */
  lemma HitIsListedFile(envs: seq<Env>, absolutePath: string, entriesAt: string -> Option<seq<Option<string>>>, r: Option<Node>)
    requires r.Some? ==> exists i :: 0 <= i < |envs| && r == NodeIn(envs[i], absolutePath, entriesAt)
    ensures r.Some? ==> r.value.FileNode? && !StartsWith(r.value.filePath, "..")
    ensures r.Some? ==> exists i :: 0 <= i < |envs| && r.value.projectDir == envs[i].projectDir
                                    && r.value.filePath == Paths.Relative(envs[i].projectDir, absolutePath)
    ensures r.Some? ==> entriesAt(r.value.dictionaryJsonPath).Some? && Some(r.value.filePath) in entriesAt(r.value.dictionaryJsonPath).value
  {
    if r.Some? {
      var i :| 0 <= i < |envs| && r == NodeIn(envs[i], absolutePath, entriesAt);
      assert r.value.projectDir == envs[i].projectDir;
    }
  }

  /** A path that some project's dictionary file lists, relative to that
      project, is always found. */
  lemma ListedPathFound(envs: seq<Env>, absolutePath: string, entriesAt: string -> Option<seq<Option<string>>>, i: nat, k: nat)
    requires i < |envs| && k < |envs[i].files|
    requires !StartsWith(Paths.Relative(envs[i].projectDir, absolutePath), "..")
    requires Mentions(envs[i], Paths.Relative(envs[i].projectDir, absolutePath), envs[i].files[k], entriesAt)
    ensures FindFileNode(envs, absolutePath, entriesAt).Some?
  {
    assert FindInFiles(envs[i], Paths.Relative(envs[i].projectDir, absolutePath), envs[i].files, entriesAt).Some?;
    assert NodeIn(envs[i], absolutePath, entriesAt).Some?;
  }

  /** A project the path lies outside of is skipped, whatever its
      dictionaries mention. */
  lemma OutsideProjectSkipped(e: Env, rest: seq<Env>, absolutePath: string, entriesAt: string -> Option<seq<Option<string>>>)
    requires Paths.CommonPrefixLength(Paths.Segments(e.projectDir), Paths.Segments(absolutePath)) < |Paths.Segments(e.projectDir)|
    ensures FindFileNode([e] + rest, absolutePath, entriesAt) == FindFileNode(rest, absolutePath, entriesAt)
  {
    Paths.RelativeOutside(e.projectDir, absolutePath);
    assert ([e] + rest)[1..] == rest;
  }
}
