/** The hover shown over a dictionary field in code
    (src/providers/intlayerHoverProvider.ts): a header naming the dictionary,
    the path and a display type, then one section per dictionary entry that
    is remote or holds a truthy value at the path. The origin of the hovered
    expression, the project root, the configuration and the dictionary files
    are given; the markdown layout is not modelled. */
module Hover {
  import opened Wrappers
  import opened Text
  import opened Content
  import opened ValueResolver
  import Lists
  import Paths
  import PathResolver

  /** The configuration values the hover reads. */
  datatype Config = Config(unmergedDictionariesDir: string, cmsUrl: string)

  /** `traverseContent(content, path)` followed by the truthiness test
      every use of it makes: the value when it is truthy. */
  function Found(content: Json, path: seq<string>): (r: Option<Json>)
    ensures r.Some? <==> Walk(content, path).Some? && Truthy(Walk(content, path).value)
    ensures r.Some? ==> r == Walk(content, path)
  {
    match Walk(content, path)
    case Some(v) => if Truthy(v) then Some(v) else None
    case None => None
  }

  predicate IsRemote(d: Dictionary) { d.location == Some("remote") }

  /** A local entry whose value at the path is found: one that can give the type. */
  predicate Typed(d: Dictionary, path: seq<string>) {
    !IsRemote(d) && Found(d.content, path).Some?
  }

  /** The display type of a found value. A translation shows the `typeof`
      of its first value when the `intlayer` package itself is used or an
      accessor was read, and `IntlayerNode` otherwise; other objects show
      `Object`. */
  function NodeType(v: Json, moduleSource: Option<string>, isAccessor: bool): (r: string)
    ensures r == "IntlayerNode" <==> v.Obj? && IsTranslationNode(v) && moduleSource != Some("intlayer") && !isAccessor
    ensures !(v.Obj? && IsTranslationNode(v)) ==> r != "object" && (r == "Object" <==> TypeOf(v) == "object")
    ensures !(v.Obj? && IsTranslationNode(v)) && TypeOf(v) != "object" ==> r == TypeOf(v)
    ensures v.Obj? && IsTranslationNode(v) && (moduleSource == Some("intlayer") || isAccessor) ==>
              var values := Values(Member(v, "translation"));
              (|values| == 0 ==> r == "unknown") && (|values| > 0 ==> r == TypeOf(values[0]))
  {
    if v.Obj? && IsTranslationNode(v) then
      var values := Values(Member(v, "translation"));
      var primitive := if |values| > 0 then TypeOf(values[0]) else "unknown";
      if moduleSource == Some("intlayer") || isAccessor then primitive else "IntlayerNode"
    else if TypeOf(v) == "object" then "Object"
    else TypeOf(v)
  }

  /** Reading `.value` or `.raw` through a framework package shows what the
      core `intlayer` package shows without one. */
  lemma AccessorLikeCorePackage(v: Json, moduleSource: Option<string>)
    ensures NodeType(v, moduleSource, true) == NodeType(v, Some("intlayer"), false)
  {
  }

  /** The type-determining loop: the first typed entry decides; `unknown`
      when none does. */
  function DisplayType(dicts: seq<Dictionary>, path: seq<string>, moduleSource: Option<string>, isAccessor: bool): (r: string)
    ensures r == "unknown" || exists i :: 0 <= i < |dicts| && Typed(dicts[i], path)
                                          && r == NodeType(Walk(dicts[i].content, path).value, moduleSource, isAccessor)
  {
    if dicts == [] then "unknown"
    else if Typed(dicts[0], path) then NodeType(Walk(dicts[0].content, path).value, moduleSource, isAccessor)
    else
      var r := DisplayType(dicts[1..], path, moduleSource, isAccessor);
      assert forall i :: 1 <= i < |dicts| ==> dicts[i] == dicts[1..][i - 1];
      r
  }

  /** The first typed entry decides the type, whatever the entries after it hold. */
  lemma {:induction false} FirstTypedDecides(dicts: seq<Dictionary>, path: seq<string>, moduleSource: Option<string>,
                                             isAccessor: bool, i: nat)
    requires i < |dicts| && Typed(dicts[i], path) && forall j :: 0 <= j < i ==> !Typed(dicts[j], path)
    ensures DisplayType(dicts, path, moduleSource, isAccessor) == NodeType(Walk(dicts[i].content, path).value, moduleSource, isAccessor)
    decreases i
  {
    if i > 0 {
      assert !Typed(dicts[0], path);
      assert dicts[i] == dicts[1..][i - 1];
      assert forall j :: 0 <= j < i - 1 ==> dicts[1..][j] == dicts[j + 1];
      FirstTypedDecides(dicts[1..], path, moduleSource, isAccessor, i - 1);
    }
  }

  /** Without a typed entry the type is `unknown`. */
  lemma {:induction false} NoTypedIsUnknown(dicts: seq<Dictionary>, path: seq<string>, moduleSource: Option<string>, isAccessor: bool)
    requires forall i :: 0 <= i < |dicts| ==> !Typed(dicts[i], path)
    ensures DisplayType(dicts, path, moduleSource, isAccessor) == "unknown"
  {
    if dicts != [] {
      assert !Typed(dicts[0], path);
      assert forall j :: 0 <= j < |dicts| - 1 ==> dicts[1..][j] == dicts[j + 1];
      NoTypedIsUnknown(dicts[1..], path, moduleSource, isAccessor);
    }
  }

  /** The path line of the header: the path joined with ".", or `root`. */
  function PathLabel(path: seq<string>): (r: string)
    ensures r != ""
    ensures path == [] ==> r == "root"
    ensures Join(path, ".") != "" ==> r == Join(path, ".")
  {
    var joined := Join(path, ".");
    if joined == "" then "root" else joined
  }

  /** `Object.entries(v)` for the values a translation holds. */
  function Entries(v: Json): (r: seq<(string, Json)>)
    ensures v.Obj? ==> |r| == |v.fields| && forall i :: 0 <= i < |r| ==> r[i] == (v.fields[i].name, v.fields[i].value)
    ensures v.Arr? ==> |r| == |v.items| && forall i :: 0 <= i < |r| ==> r[i] == (NatToString(i), v.items[i])
  {
    match v
    case Obj(fields) => seq(|fields|, i requires 0 <= i < |fields| => (fields[i].name, fields[i].value))
    case Arr(items) => seq(|items|, i requires 0 <= i < |items| => (NatToString(i), items[i]))
    case Str(s) => seq(|s|, i requires 0 <= i < |s| => (NatToString(i), Str([s[i]])))
    case _ => []
  }

  /** How a found value is shown: a locale table for a translation, a JSON
      block for another object, the value itself otherwise. */
  datatype Body = Table(rows: seq<(string, Json)>) | JsonBlock(value: Json) | ValueLine(value: Json)

  datatype Section =
    | RemoteLink(url: string)                 // `[Open Dashboard](url)`
    | LocalValue(file: Option<string>, body: Body) // the file link (None: "Local Content") and the value

  function BodyOf(v: Json): Body {
    if v.Obj? && IsTranslationNode(v) then Table(Entries(Member(v, "translation")))
    else if TypeOf(v) == "object" then JsonBlock(v)
    else ValueLine(v)
  }

  /** An entry that gets a section. */
  predicate Shown(d: Dictionary, path: seq<string>) {
    IsRemote(d) || Found(d.content, path).Some?
  }

  function ShownAt(path: seq<string>): Dictionary -> bool {
    d => Shown(d, path)
  }

  /** The section of a shown entry. */
  function SectionOf(d: Dictionary, path: seq<string>, key: string, projectDir: string, config: Config): (r: Section)
    ensures IsRemote(d) <==> r.RemoteLink?
  {
    if IsRemote(d) then RemoteLink(config.cmsUrl + "/dictionary/" + key)
    else LocalValue(if d.filePath != "" then Some(Paths.Join(projectDir, d.filePath)) else None,
                    BodyOf(Found(d.content, path).GetOr(Undefined)))
  }

  /** The body loop: a section for each shown entry. */
  function Sections(dicts: seq<Dictionary>, path: seq<string>, key: string, projectDir: string, config: Config): seq<Section> {
    if dicts == [] then []
    else
      var rest := Sections(dicts[1..], path, key, projectDir, config);
      if Shown(dicts[0], path) then [SectionOf(dicts[0], path, key, projectDir, config)] + rest else rest
  }

  /** The sections are those of the shown entries, one each, in entry order. */
  lemma {:induction false} SectionsOfShownEntries(dicts: seq<Dictionary>, path: seq<string>, key: string, projectDir: string, config: Config)
    ensures var shown := Lists.Filter(dicts, ShownAt(path));
            var r := Sections(dicts, path, key, projectDir, config);
            |r| == |shown| && forall i :: 0 <= i < |r| ==> r[i] == SectionOf(shown[i], path, key, projectDir, config)
  {
    if dicts != [] {
      SectionsOfShownEntries(dicts[1..], path, key, projectDir, config);
      assert ShownAt(path)(dicts[0]) == Shown(dicts[0], path);
    }
  }

  datatype Header = Header(dictionaryKey: string, path: string, displayType: string)

  datatype HoverContent = HoverContent(header: Header, sections: seq<Section>)

  /** `provideHover`. `origin` is what resolving the hovered expression
      gives, `projectDir` the project root found for the document's folder,
      `config` the cached configuration (None when loading it throws) and
      `dictionaries(p)` the cached entries of the dictionary file at `p`. */
  function ProvideHover(origin: Option<PathResolver.Origin>, projectDir: Option<string>, config: Option<Config>,
                        dictionaries: string -> Option<seq<Dictionary>>): (r: Option<HoverContent>)
    ensures r.Some? ==> origin.Some? && projectDir.Some? && projectDir.value != "" && config.Some?
    ensures r.Some? ==>
              var o := origin.value;
              var clean := StripValueAccessor(o.fieldPath);
              var dicts := dictionaries(Paths.Join(config.value.unmergedDictionariesDir, o.dictionaryKey + ".json"));
              dicts.Some?
              && r.value.header == Header(o.dictionaryKey, PathLabel(clean),
                                          DisplayType(dicts.value, clean, o.moduleSource, EndsWithValueAccessor(o.fieldPath)))
              && r.value.sections == Sections(dicts.value, clean, o.dictionaryKey, projectDir.value, config.value)
    ensures origin.Some? && projectDir.Some? && projectDir.value != "" && config.Some?
            && dictionaries(Paths.Join(config.value.unmergedDictionariesDir, origin.value.dictionaryKey + ".json")).Some?
            ==> r.Some?
  {
    match origin
    case None => None
    case Some(o) =>
      var isAccessor := EndsWithValueAccessor(o.fieldPath);
      var clean := StripValueAccessor(o.fieldPath);
      if projectDir.None? || projectDir.value == "" || config.None? then None
      else
        match dictionaries(Paths.Join(config.value.unmergedDictionariesDir, o.dictionaryKey + ".json"))
        case None => None
        case Some(dicts) =>
          Some(HoverContent(Header(o.dictionaryKey, PathLabel(clean), DisplayType(dicts, clean, o.moduleSource, isAccessor)),
                            Sections(dicts, clean, o.dictionaryKey, projectDir.value, config.value)))
  }

  /** A value of 0, "" or false at the path counts as not found: such an
      entry neither decides the type nor gets a section. */
  lemma FalsyLeafNotFound(d: Dictionary, path: seq<string>)
    requires !IsRemote(d) && Walk(d.content, path).Some? && !Truthy(Walk(d.content, path).value)
    ensures !Typed(d, path) && !Shown(d, path)
  {
  }

  /** Remote entries never decide the type, and each gets exactly the
      dashboard link of the dictionary. */
  lemma RemoteEntriesOnlyLink(dicts: seq<Dictionary>, path: seq<string>, key: string, projectDir: string, config: Config, i: nat)
    requires i < |dicts| && IsRemote(dicts[i])
    ensures !Typed(dicts[i], path)
    ensures Shown(dicts[i], path)
    ensures SectionOf(dicts[i], path, key, projectDir, config) == RemoteLink(config.cmsUrl + "/dictionary/" + key)
  {
  }

  /** Hovering `x.value` or `x.raw` shows the primitive type of a
      translation's first value; hovering `x` through a framework package
      shows `IntlayerNode`. */
  lemma AccessorShowsPrimitive(tr: Json, moduleSource: Option<string>)
    requires tr.Obj? && IsTranslationNode(tr)
    requires |Values(Member(tr, "translation"))| > 0
    ensures NodeType(tr, moduleSource, true) == TypeOf(Values(Member(tr, "translation"))[0])
    ensures moduleSource != Some("intlayer") ==> NodeType(tr, moduleSource, false) == "IntlayerNode"
  {
  }
}
