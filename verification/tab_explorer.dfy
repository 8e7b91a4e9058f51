/** The tree view of the Intlayer tab (src/tab/dictionaryExplorer.ts): the
    same nodes as the explorer view, but a project is listed only when its
    dictionary directory is configured, exists and holds `.json` files, and
    under a search a dictionary shows its files only when its entries
    mention the query. The fuzzy search of the root level is not modelled. */
module TabExplorer {
  import opened Wrappers
  import opened Text
  import Lists
  import Paths
  import opened Explorer

  /** `getSearchQuery`, written with `||`: the same answer as the explorer
      view for every stored query the setter can produce. */
  function TabQueryText(stored: Option<string>): (r: string)
    ensures stored.Some? && stored.value != "" ==> r == stored.value
    ensures stored.None? ==> r == ""
  {
    if stored.Some? && stored.value != "" then stored.value else ""
  }

  lemma QueryGettersAgree(query: Option<string>)
    ensures TabQueryText(NormalizeQuery(query)) == QueryText(NormalizeQuery(query))
  {
  }

  /** One project of the root level, or `None` when it is skipped: no
      configured dictionary directory, one that does not exist, or one
      without `.json` files. */
  function TabEnvOf(projectDir: string, unmergedDictionariesDir: Option<string>, onDisk: string -> bool,
                    listing: string -> seq<string>, packageName: Option<string>): (r: Option<Env>)
    ensures r.Some? <==> unmergedDictionariesDir.Some? && unmergedDictionariesDir.value != ""
                         && onDisk(unmergedDictionariesDir.value) && JsonFiles(listing(unmergedDictionariesDir.value)) != []
    ensures r.Some? ==> r.value.projectDir == projectDir && r.value.dir == unmergedDictionariesDir.value
                        && r.value.files == JsonFiles(listing(r.value.dir)) && r.value.files != []
                        && r.value.title == ProjectTitle(projectDir, packageName)
  {
    match unmergedDictionariesDir
    case None => None
    case Some(dir) =>
      if dir == "" || !onDisk(dir) then None
      else
        var files := JsonFiles(listing(dir));
        if files == [] then None else Some(Env(projectDir, dir, files, ProjectTitle(projectDir, packageName)))
  }

  /** What the root level reads of one project root: its configured
      dictionary directory and its package name. */
  datatype TabProject = TabProject(projectDir: string, unmergedDictionariesDir: Option<string>, packageName: Option<string>)

  /** The environments the root level caches: the projects `TabEnvOf`
      keeps, in the order of the roots. */
  function TabEnvs(ps: seq<TabProject>, onDisk: string -> bool, listing: string -> seq<string>): (r: seq<Env>)
    ensures |r| <= |ps|
    ensures forall i :: 0 <= i < |ps| && TabEnvOf(ps[i].projectDir, ps[i].unmergedDictionariesDir, onDisk, listing, ps[i].packageName).Some? ==>
              TabEnvOf(ps[i].projectDir, ps[i].unmergedDictionariesDir, onDisk, listing, ps[i].packageName).value in r
    ensures forall e :: e in r ==>
              exists i :: 0 <= i < |ps| && TabEnvOf(ps[i].projectDir, ps[i].unmergedDictionariesDir, onDisk, listing, ps[i].packageName) == Some(e)
  {
    if ps == [] then []
    else
      var rest := TabEnvs(ps[1..], onDisk, listing);
      assert forall i :: 1 <= i < |ps| ==> ps[i] == ps[1..][i - 1];
      match TabEnvOf(ps[0].projectDir, ps[0].unmergedDictionariesDir, onDisk, listing, ps[0].packageName)
      case None => rest
      case Some(e) => [e] + rest
  }

  /** The root level as written: `findAllProjectRoots()` is not awaited, so
      `roots` is a promise whose `length` is undefined and the level
      returns `[]` before any project is read. */
  function TabRootChildrenAsWritten(ps: seq<TabProject>): (r: seq<Node>)
    ensures |r| <= |ps|
  {
    []
  }

  /** The root level without a search once the roots are awaited: one
      environment node per listed project, in order. */
  function TabRootChildren(ps: seq<TabProject>, onDisk: string -> bool, listing: string -> seq<string>): (r: seq<Node>)
    ensures |r| == |TabEnvs(ps, onDisk, listing)| <= |ps|
    ensures forall i :: 0 <= i < |r| ==> r[i].EnvironmentNode? && r[i] == EnvNode(TabEnvs(ps, onDisk, listing)[i])
  {
    RootChildren(TabEnvs(ps, onDisk, listing))
  }

  /** However many projects have listable dictionaries, the tab's root
      level as written shows none, where the awaited roots show each of
      them. */
  lemma TabRootAlwaysEmpty(ps: seq<TabProject>, onDisk: string -> bool, listing: string -> seq<string>, k: nat)
    requires k < |ps| && TabEnvOf(ps[k].projectDir, ps[k].unmergedDictionariesDir, onDisk, listing, ps[k].packageName).Some?
    ensures TabRootChildrenAsWritten(ps) == []
    ensures EnvNode(TabEnvOf(ps[k].projectDir, ps[k].unmergedDictionariesDir, onDisk, listing, ps[k].packageName).value)
              in TabRootChildren(ps, onDisk, listing)
  {
    var e := TabEnvOf(ps[k].projectDir, ps[k].unmergedDictionariesDir, onDisk, listing, ps[k].packageName).value;
    var envs := TabEnvs(ps, onDisk, listing);
    var j :| 0 <= j < |envs| && envs[j] == e;
    assert TabRootChildren(ps, onDisk, listing)[j] == EnvNode(e);
  }

  /** The children of an environment node: all its dictionary files, with
      or without a search. */
  function TabEnvChildren(envs: seq<Env>, projectDir: string): (r: seq<Node>)
    ensures FindEnv(envs, projectDir).None? ==> r == []
    ensures FindEnv(envs, projectDir).Some? ==>
              |r| == |FindEnv(envs, projectDir).value.files|
              && forall i :: 0 <= i < |r| ==> r[i].DictionaryNode? && r[i].projectDir == projectDir
                                              && r[i].key == KeyOf(FindEnv(envs, projectDir).value.files[i])
  {
    match FindEnv(envs, projectDir)
    case None => []
    case Some(e) => DictNodes(e, e.files)
  }

  /** The search gate of the dictionary level: `serialized` is
      `JSON.stringify` of the dictionary's truthy entries. */
  predicate PassesGate(serialized: string, query: Option<string>) {
    query.None? || Contains(Lower(serialized), Lower(query.value))
  }

  /** The children of a dictionary node: none when the file cannot be read
      or parsed, none under a search its entries do not mention, otherwise
      its file paths as in the explorer view. */
  function TabDictionaryChildren(d: Node, entries: Option<seq<Option<string>>>, serialized: string,
                                 query: Option<string>): (r: seq<Node>)
    requires d.DictionaryNode?
    ensures entries.None? || !PassesGate(serialized, query) ==> r == []
    ensures entries.Some? && PassesGate(serialized, query) ==> r == DictionaryChildren(d, entries, query)
  {
    if entries.None? || !PassesGate(serialized, query) then [] else DictionaryChildren(d, entries, query)
  }

  /** Without a search the two views list the same files under a
      dictionary. */
  lemma SameFilesWithoutSearch(d: Node, entries: Option<seq<Option<string>>>, serialized: string)
    requires d.DictionaryNode?
    ensures TabDictionaryChildren(d, entries, serialized, None) == DictionaryChildren(d, entries, None)
  {
  }

  /** `getParent`, whose label fallback is written with `||`: an empty
      cached label also falls back to the directory's base name. */
  function TabGetParent(n: Node, envs: seq<Env>): (r: Option<Node>)
    ensures n.EnvironmentNode? ==> r.None?
    ensures n.DictionaryNode? ==> r == GetParent(n, envs)
    ensures n.FileNode? ==> r.Some? && r.value.DictionaryNode? && r.value.jsonPath == n.dictionaryJsonPath
                            && r.value.key == KeyOf(n.dictionaryJsonPath) && r.value.projectDir == n.projectDir
    ensures n.FileNode? && FindEnv(envs, n.projectDir).Some? && FindEnv(envs, n.projectDir).value.title != "" ==>
              r == GetParent(n, envs)
  {
    match n
    case FileNode(_, projectDir, jsonPath) =>
      var found := FindEnv(envs, projectDir);
      var title := if found.Some? && found.value.title != "" then found.value.title else Paths.Basename(projectDir);
      Some(DictionaryNode(KeyOf(jsonPath), jsonPath, projectDir, title))
    case _ => GetParent(n, envs)
  }

  /** A project the tab lists has a non-empty label whenever its package
      name or directory name is non-empty, so the two fallbacks agree on
      every project the root level caches. */
  lemma ParentsAgreeOnListedProjects(n: Node, envs: seq<Env>)
    requires n.FileNode?
    requires FindEnv(envs, n.projectDir).Some? ==> FindEnv(envs, n.projectDir).value.title != ""
    ensures TabGetParent(n, envs) == GetParent(n, envs)
  {
  }
}
