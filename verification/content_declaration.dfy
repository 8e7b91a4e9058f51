/** The multi-select pick of content declaration files
    (src/utils/selectContentDeclaration.ts): every dictionary file of the
    project is offered by its project-relative path, the file open in the
    editor is preselected and moved to the top, and the chosen labels are
    joined back onto the project directory. The file listing and the pick
    itself are parameters. */
module ContentDeclaration {
  import opened Wrappers
  import opened Text
  import opened Lists
  import Paths

  /** A quick-pick item. */
  datatype PickItem = PickItem(name: string, picked: bool)

  /** `relative(projectDir, fsPath)` of the active editor's file, or
      `undefined` without an editor. */
  function ActiveRelative(projectDir: string, activeFile: Option<string>): (r: Option<string>)
    ensures r.Some? <==> activeFile.Some?
    ensures r.Some? ==> r.value == Paths.Relative(projectDir, activeFile.value)
  {
    match activeFile
    case None => None
    case Some(f) => Some(Paths.Relative(projectDir, f))
  }

  /** The items, in listing order: each labelled with its file's relative
      path and preselected when that is the active file's. */
  function PickItems(projectDir: string, files: seq<string>, activeFile: Option<string>): (r: seq<PickItem>)
    ensures |r| == |files|
    ensures forall i :: 0 <= i < |r| ==> r[i].name == Paths.Relative(projectDir, files[i])
    ensures forall i :: 0 <= i < |r| ==> (r[i].picked <==> ActiveRelative(projectDir, activeFile) == Some(r[i].name))
  {
    var active := ActiveRelative(projectDir, activeFile);
    seq(|files|, i requires 0 <= i < |files| =>
      var name := Paths.Relative(projectDir, files[i]);
      PickItem(name, active == Some(name)))
  }

  function IsPicked(): PickItem -> bool {
    (it: PickItem) => it.picked
  }

  /** The items as offered: `sort((a, b) => a.picked === b.picked ? 0 :
      a.picked ? -1 : 1)`, which is stable. */
  function Offered(projectDir: string, files: seq<string>, activeFile: Option<string>): (r: seq<PickItem>)
    ensures |r| == |files|
  {
    var items := PickItems(projectDir, files, activeFile);
    StablePartitionIsStableSort(items, IsPicked());
    assert |multiset(StablePartition(items, IsPicked()))| == |multiset(items)|;
    StablePartition(items, IsPicked())
  }

  /** The files `projectDir/rel` for each relative path. */
  function Below(projectDir: string, rels: seq<string>): (r: seq<string>)
    ensures |r| == |rels|
  {
    seq(|rels|, j requires 0 <= j < |rels| => projectDir + "/" + rels[j])
  }

  /** The offered list is the items reordered, the preselected ones first,
      each group in listing order. */
  lemma OfferedPickedFirst(projectDir: string, files: seq<string>, activeFile: Option<string>)
    ensures var items := PickItems(projectDir, files, activeFile);
            var offered := Offered(projectDir, files, activeFile);
            && multiset(offered) == multiset(items)
            && (forall i, j :: 0 <= i < j < |offered| && offered[j].picked ==> offered[i].picked)
            && Filter(offered, IsPicked()) == Filter(items, IsPicked())
  {
    StablePartitionIsStableSort(PickItems(projectDir, files, activeFile), IsPicked());
  }

  /** Every preselected item carries the active file's relative path. */
  lemma PickedIsActive(projectDir: string, files: seq<string>, activeFile: Option<string>, i: nat)
    requires i < |Offered(projectDir, files, activeFile)| && Offered(projectDir, files, activeFile)[i].picked
    ensures activeFile.Some?
    ensures Offered(projectDir, files, activeFile)[i].name == Paths.Relative(projectDir, activeFile.value)
  {
    OfferedPickedFirst(projectDir, files, activeFile);
    var items := PickItems(projectDir, files, activeFile);
    var it := Offered(projectDir, files, activeFile)[i];
    assert it in multiset(items);
  }

  /** The chosen items mapped back to paths: `join(projectDir, label)` for
      each, `undefined` when the pick is dismissed. `selection` holds the
      positions of the chosen items in the offered list. */
  function SelectedPaths(projectDir: string, offered: seq<PickItem>, selection: Option<seq<nat>>): (r: Option<seq<string>>)
    requires selection.Some? ==> forall k :: 0 <= k < |selection.value| ==> selection.value[k] < |offered|
    ensures r.Some? <==> selection.Some?
    ensures r.Some? ==> |r.value| == |selection.value|
                        && forall k :: 0 <= k < |r.value| ==> r.value[k] == Paths.Join(projectDir, offered[selection.value[k]].name)
  {
    match selection
    case None => None
    case Some(chosen) =>
      Some(seq(|chosen|, k requires 0 <= k < |chosen| => Paths.Join(projectDir, offered[chosen[k]].name)))
  }

  /** Every offered item is labelled with the relative path of one of the
      listed files. */
  lemma OfferedFromFile(projectDir: string, files: seq<string>, activeFile: Option<string>, i: nat)
    requires i < |files|
    ensures exists j :: 0 <= j < |files| && Offered(projectDir, files, activeFile)[i].name == Paths.Relative(projectDir, files[j])
  {
    OfferedPickedFirst(projectDir, files, activeFile);
    var items := PickItems(projectDir, files, activeFile);
    var it := Offered(projectDir, files, activeFile)[i];
    assert it in multiset(items);
    var j :| 0 <= j < |items| && items[j] == it;
  }

  /** For dictionary files below the project directory, every path the
      pick returns is one of the listed files. */
  lemma SelectedAreListed(projectDir: string, rels: seq<string>, activeFile: Option<string>, chosen: seq<nat>)
    requires projectDir != "" && !EndsWith(projectDir, "/")
    requires forall j :: 0 <= j < |rels| ==> Paths.Normal(rels[j])
    requires forall k :: 0 <= k < |chosen| ==> chosen[k] < |rels|
    ensures var r := SelectedPaths(projectDir, Offered(projectDir, Below(projectDir, rels), activeFile), Some(chosen));
            forall k :: 0 <= k < |r.value| ==> r.value[k] in Below(projectDir, rels)
  {
    var files := Below(projectDir, rels);
    var offered := Offered(projectDir, files, activeFile);
    var r := SelectedPaths(projectDir, offered, Some(chosen));
    forall k | 0 <= k < |r.value|
      ensures r.value[k] in files
    {
      OfferedFromFile(projectDir, files, activeFile, chosen[k]);
      var j :| 0 <= j < |files| && offered[chosen[k]].name == Paths.Relative(projectDir, files[j]);
      Paths.RelativeJoinRoundTrip(projectDir, rels[j]);
      assert r.value[k] == files[j];
    }
  }
}
