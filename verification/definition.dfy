/** "Go to definition" on a dictionary field in code
    (src/providers/intlayerDefinitionProvider.ts): every local dictionary
    entry whose source file exists yields a target in that file, at the
    declaration of the field when it is found and at the file's start
    otherwise. */
module Definition {
  import opened Wrappers
  import opened Syntax
  import opened Content
  import opened ValueResolver
  import Lists
  import Paths
  import PathResolver
  import FieldLocation

  /** A definition target: the source file and a zero-width range. */
  datatype Target = Target(uri: string, range: Range)

  /** The file system and parser as seen from the provider: whether a path
      exists, what reading a file gives, the parse of a code file, and the
      parsed dictionary file at a path (None when reading or parsing fails). */
  datatype Files = Files(onDisk: string -> bool, read: string -> Option<string>, parse: string -> SourceFile,
                         dictionaries: string -> Option<seq<Dictionary>>)

  /** The path searched in a content declaration: the content object, then
      the field path without its accessor. */
  function AstPath(fieldPath: seq<string>): (r: seq<string>)
    ensures |r| >= 1 && r[0] == "content"
    ensures r[1..] == StripValueAccessor(fieldPath)
  {
    ["content"] + StripValueAccessor(fieldPath)
  }

  /** An entry declared in a local file that is still on disk. */
  predicate HasSource(d: Dictionary, projectDir: string, files: Files) {
    d.location == Some("local") && d.filePath != "" && files.onDisk(Paths.Join(projectDir, d.filePath))
  }

  function HasSourceIn(projectDir: string, files: Files): Dictionary -> bool {
    d => HasSource(d, projectDir, files)
  }

  /** A zero-width range at a position. */
  function Caret(p: Pos): (r: Range)
    ensures r.start == p && r.end == p
  {
    Range(p, p)
  }

  /** The target of an entry with a source file. */
  function TargetOf(d: Dictionary, projectDir: string, path: seq<string>, files: Files): (r: Target)
    ensures r.uri == Paths.Join(projectDir, d.filePath) && r.range.start == r.range.end
    ensures var found := FieldLocation.FindFieldLocation(r.uri, path, files.read(r.uri), files.parse(r.uri));
            r.range.start == (if found.Some? then found.value else Pos(0, 0))
  {
    var abs := Paths.Join(projectDir, d.filePath);
    match FieldLocation.FindFieldLocation(abs, path, files.read(abs), files.parse(abs))
    case Some(p) => Target(abs, Caret(p))
    case None => Target(abs, Caret(Pos(0, 0)))
  }

  /** The loop over the entries. */
  function Targets(dicts: seq<Dictionary>, projectDir: string, path: seq<string>, files: Files): (r: seq<Target>)
    ensures |r| <= |dicts|
    ensures forall t :: t in r ==> exists i :: 0 <= i < |dicts| && HasSource(dicts[i], projectDir, files)
                                             && t == TargetOf(dicts[i], projectDir, path, files)
  {
    if dicts == [] then []
    else
      var rest := Targets(dicts[1..], projectDir, path, files);
      assert forall i :: 1 <= i < |dicts| ==> dicts[i] == dicts[1..][i - 1];
      if HasSource(dicts[0], projectDir, files) then [TargetOf(dicts[0], projectDir, path, files)] + rest else rest
  }

  /** One target per entry with a source file, in entry order; remote
      entries, entries without a file path and files no longer on disk give
      none. */
  lemma {:induction false} TargetsOfLocalEntries(dicts: seq<Dictionary>, projectDir: string, path: seq<string>, files: Files)
    ensures var local := Lists.Filter(dicts, HasSourceIn(projectDir, files));
            var r := Targets(dicts, projectDir, path, files);
            |r| == |local| && forall i :: 0 <= i < |r| ==> r[i] == TargetOf(local[i], projectDir, path, files)
  {
    if dicts != [] {
      TargetsOfLocalEntries(dicts[1..], projectDir, path, files);
      assert HasSourceIn(projectDir, files)(dicts[0]) == HasSource(dicts[0], projectDir, files);
    }
  }

  /** Where the dictionary file of a key lives. */
  function DictionaryPath(unmergedDictionariesDir: string, key: string): string {
    Paths.Join(unmergedDictionariesDir, key + ".json")
  }

  /** `provideDefinition`: `origin` is what resolving the expression under
      the cursor gives, `projectDir` the project root of the document's
      folder and `unmergedDictionariesDir` the configured directory. `None`
      is `null`. */
  function ProvideDefinition(origin: Option<PathResolver.Origin>, projectDir: Option<string>,
                             unmergedDictionariesDir: string, files: Files): (r: Option<seq<Target>>)
    ensures r.Some? ==>
              origin.Some? && projectDir.Some? && projectDir.value != ""
              && var dictPath := DictionaryPath(unmergedDictionariesDir, origin.value.dictionaryKey);
                 files.onDisk(dictPath) && files.dictionaries(dictPath).Some?
                 && r.value != []
                 && r.value == Targets(files.dictionaries(dictPath).value, projectDir.value, AstPath(origin.value.fieldPath), files)
    ensures (origin.Some? && projectDir.Some? && projectDir.value != ""
             && var dictPath := DictionaryPath(unmergedDictionariesDir, origin.value.dictionaryKey);
                files.onDisk(dictPath) && files.dictionaries(dictPath).Some?
                && Targets(files.dictionaries(dictPath).value, projectDir.value, AstPath(origin.value.fieldPath), files) != [])
            ==> r.Some?
  {
    match origin
    case None => None
    case Some(o) =>
      if projectDir.None? || projectDir.value == "" then None
      else
        var dictPath := DictionaryPath(unmergedDictionariesDir, o.dictionaryKey);
        if !files.onDisk(dictPath) then None
        else match files.dictionaries(dictPath)
          case None => None
          case Some(dicts) =>
            var targets := Targets(dicts, projectDir.value, AstPath(o.fieldPath), files);
            if targets == [] then None else Some(targets)
  }

  /** Without an entry backed by a source file on disk there is no definition. */
  lemma {:induction false} NoLocalSourceNoDefinition(dicts: seq<Dictionary>, projectDir: string, path: seq<string>, files: Files)
    requires forall i :: 0 <= i < |dicts| ==> !HasSource(dicts[i], projectDir, files)
    ensures Targets(dicts, projectDir, path, files) == []
  {
    if dicts != [] {
      assert forall j :: 0 <= j < |dicts| - 1 ==> dicts[1..][j] == dicts[j + 1];
      NoLocalSourceNoDefinition(dicts[1..], projectDir, path, files);
    }
  }

  /** Going to `x.title.value` searches the declaration of `x.title`: one
      trailing accessor is dropped, and only one, so `x.value.value` searches
      for a field named `value`. */
  lemma AccessorDoesNotMoveTarget(path: seq<string>, accessor: string)
    requires IsValueAccessor(accessor)
    ensures AstPath(path + [accessor]) == ["content"] + path
  {
    var p := path + [accessor];
    assert p[|p| - 1] == accessor && p[..|p| - 1] == path;
  }
}
