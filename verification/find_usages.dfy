/** Where a dictionary is used in the project's code (src/utils/findUsages.ts):
    for every `useIntlayer('key')`/`getIntlayer('key')` call the keys its
    result is read with, and where. */
module FindUsages {
  import opened Wrappers
  import opened Syntax
  import opened Text

  /** Recorded when the result is used in a way that may read any key. */
  const All: string := "__ALL__"
  /** Recorded when the call's result is not stored in a variable. */
  const ExistenceCheck: string := "__EXISTENCE_CHECK__"

  /** The usage of one accessor call: its range, the keys read from its
      result and, per key, the ranges where it is read. */
  datatype Usage = Usage(range: Range, keysUsed: set<string>, keyLocations: map<string, seq<Range>>)

  function Ranges(m: map<string, seq<Range>>, k: string): seq<Range> {
    if k in m then m[k] else []
  }

  /** Every key that has locations is a used key. */
  predicate Consistent(keys: set<string>, locations: map<string, seq<Range>>) {
    forall k :: k in locations ==> k in keys
  }

  /** `addLocation(key, node)`. */
  function AddLocation(u: Usage, key: string, r: Range): (v: Usage)
    ensures v.range == u.range
    ensures v.keysUsed == u.keysUsed + {key}
    ensures Ranges(v.keyLocations, key) == Ranges(u.keyLocations, key) + [r]
    ensures forall k :: k != key ==> Ranges(v.keyLocations, k) == Ranges(u.keyLocations, k)
    ensures Consistent(u.keysUsed, u.keyLocations) ==> Consistent(v.keysUsed, v.keyLocations)
  {
    Usage(u.range, u.keysUsed + {key}, u.keyLocations[key := Ranges(u.keyLocations, key) + [r]])
  }

  // ---- Pattern A: destructuring ----

  /** The dictionary field a binding element reads: its property name, else its name. */
  function ElementKey(e: BindingElement): string {
    if e.propertyName.Some? then e.propertyName.value.text else e.name.text
  }

  function ElementLocation(e: BindingElement): Range {
    if e.propertyName.Some? then e.propertyName.value.range else e.name.range
  }

  /** The fields the elements read. */
  function ElementKeys(es: seq<BindingElement>): (r: set<string>)
    ensures forall k :: k in r <==> exists i :: 0 <= i < |es| && ElementKey(es[i]) == k
  {
    if es == [] then {}
    else
      assert forall i :: 1 <= i < |es| ==> es[i] == es[1..][i - 1];
      {ElementKey(es[0])} + ElementKeys(es[1..])
  }

  /** Reference: the locations recorded for `k` by elements `es`, in order. */
  function ElementRanges(es: seq<BindingElement>, k: string): seq<Range> {
    if es == [] then [] else (if ElementKey(es[0]) == k then [ElementLocation(es[0])] else []) + ElementRanges(es[1..], k)
  }

  function RecordElements(u: Usage, es: seq<BindingElement>): (v: Usage)
    ensures v.range == u.range
    ensures v.keysUsed == u.keysUsed + ElementKeys(es)
    ensures Consistent(u.keysUsed, u.keyLocations) ==> Consistent(v.keysUsed, v.keyLocations)
    decreases |es|
  {
    if es == [] then u
    else
      RecordElements(AddLocation(u, ElementKey(es[0]), ElementLocation(es[0])), es[1..])
  }

  /** Each key's locations are those of the elements naming it, in element order. */
  lemma {:induction false} RecordElementsRanges(u: Usage, es: seq<BindingElement>, k: string)
    ensures Ranges(RecordElements(u, es).keyLocations, k) == Ranges(u.keyLocations, k) + ElementRanges(es, k)
    decreases |es|
  {
    if es != [] {
      var u1 := AddLocation(u, ElementKey(es[0]), ElementLocation(es[0]));
      RecordElementsRanges(u1, es[1..], k);
      var here := if ElementKey(es[0]) == k then [ElementLocation(es[0])] else [];
      assert Ranges(u1.keyLocations, k) == Ranges(u.keyLocations, k) + here;
      SeqAssoc(Ranges(u.keyLocations, k), here, ElementRanges(es[1..], k));
    }
  }

  lemma SeqAssoc<T>(a: seq<T>, b: seq<T>, c: seq<T>)
    ensures (a + b) + c == a + (b + c)
  {
  }

  // ---- Pattern B: a variable ----

  /** The key a reference to the variable reads, if it reads a known one. */
  function ReferenceKey(id: Identifier): Option<(string, Range)> {
    match id.parent
    case MemberObject(first, _) => Some((first.text, first.range))
    case ElementObject(arg, argRange) => if arg.Literal? then Some((arg.text, argRange)) else None
    case _ => None
  }

  /** A reference that may read any key: neither `v.x` nor `v[…]`. */
  predicate IsOpaqueReference(id: Identifier) {
    !id.parent.MemberObject? && !id.parent.ElementObject?
  }

  function RecordReference(u: Usage, id: Identifier): (v: Usage)
    ensures Consistent(u.keysUsed, u.keyLocations) ==> Consistent(v.keysUsed, v.keyLocations)
  {
    match ReferenceKey(id)
    case Some((key, r)) => AddLocation(u, key, r)
    case None => if IsOpaqueReference(id) then u.(keysUsed := u.keysUsed + {All}) else u
  }

  /** The references of variable `name`: every other identifier with its text. */
  predicate IsReference(ids: seq<Identifier>, j: nat, name: string, declIndex: nat) {
    j < |ids| && ids[j].text == name && j != declIndex
  }

  function RecordReferences(u: Usage, ids: seq<Identifier>, from: nat, name: string, declIndex: nat): (v: Usage)
    requires from <= |ids|
    decreases |ids| - from
    ensures v.range == u.range
    ensures Consistent(u.keysUsed, u.keyLocations) ==> Consistent(v.keysUsed, v.keyLocations)
    ensures forall k :: k in v.keysUsed ==>
              k in u.keysUsed
              || (k == All && exists j :: from <= j < |ids| && IsReference(ids, j, name, declIndex) && IsOpaqueReference(ids[j]))
              || exists j :: from <= j < |ids| && IsReference(ids, j, name, declIndex) && ReferenceKey(ids[j]).Some? && ReferenceKey(ids[j]).value.0 == k
    ensures forall j :: from <= j < |ids| && IsReference(ids, j, name, declIndex) && ReferenceKey(ids[j]).Some? ==>
              ReferenceKey(ids[j]).value.0 in v.keysUsed
    ensures (exists j :: from <= j < |ids| && IsReference(ids, j, name, declIndex) && IsOpaqueReference(ids[j])) ==> All in v.keysUsed
    ensures u.keysUsed <= v.keysUsed
  {
    if from == |ids| then u
    else
      var u1 := if IsReference(ids, from, name, declIndex) then RecordReference(u, ids[from]) else u;
      RecordReferences(u1, ids, from + 1, name, declIndex)
  }

  // ---- One call ----

  /** The call is an accessor call whose first argument is the target key
      (a non-literal argument counts as the empty string). */
  predicate IsTargetCall(c: CallSite, target: string) {
    IsAccessorCallee(c.callee) && |c.args| > 0
    && (match LiteralText(c.args[0]) case Some(t) => t case None => "") == target
  }

  /** The usage a target call contributes, traced through its binding. */
  function AnalyzeCall(f: SourceFile, c: CallSite): (u: Usage)
    ensures u.range == c.range
    ensures Consistent(u.keysUsed, u.keyLocations)
    ensures c.binding.NotDeclared? ==> u.keysUsed == {ExistenceCheck} && u.keyLocations == map[]
    ensures c.binding.BindOther? ==> u.keysUsed == {} && u.keyLocations == map[]
    ensures c.binding.BindObject? ==>
              u.keysUsed == ElementKeys(c.binding.elements)
    ensures c.binding.BindName? ==>
              forall k :: k in u.keysUsed <==>
                (exists j :: 0 <= j < |f.identifiers| && IsReference(f.identifiers, j, c.binding.name, c.binding.nameIndex)
                             && ReferenceKey(f.identifiers[j]).Some? && ReferenceKey(f.identifiers[j]).value.0 == k)
                || (k == All && exists j :: 0 <= j < |f.identifiers| && IsReference(f.identifiers, j, c.binding.name, c.binding.nameIndex)
                                            && IsOpaqueReference(f.identifiers[j]))
  {
    var empty := Usage(c.range, {}, map[]);
    match c.binding
    case NotDeclared => Usage(c.range, {ExistenceCheck}, map[])
    case BindObject(es) => RecordElements(empty, es)
    case BindName(name, declIndex) => RecordReferences(empty, f.identifiers, 0, name, declIndex)
    case BindOther => empty
  }

  /** `analyzeFileForUsages`: the usages of the target calls, in call order. */
  function AnalyzeFile(f: SourceFile, target: string): (us: seq<Usage>)
    ensures |us| <= |f.calls|
    ensures us == [] <==> forall i :: 0 <= i < |f.calls| ==> !IsTargetCall(f.calls[i], target)
    ensures us != [] ==> exists i :: 0 <= i < |f.calls| && IsTargetCall(f.calls[i], target) && us[0] == AnalyzeCall(f, f.calls[i])
                                     && forall j :: 0 <= j < i ==> !IsTargetCall(f.calls[j], target)
    ensures forall i :: 0 <= i < |us| ==> Consistent(us[i].keysUsed, us[i].keyLocations)
  {
    AnalyzeFromFirst(f, target, 0);
    AnalyzeFrom(f, target, 0)
  }

  function AnalyzeFrom(f: SourceFile, target: string, from: nat): (us: seq<Usage>)
    requires from <= |f.calls|
    decreases |f.calls| - from
    ensures |us| <= |f.calls| - from
    ensures forall i :: 0 <= i < |us| ==> Consistent(us[i].keysUsed, us[i].keyLocations)
  {
    if from == |f.calls| then []
    else if IsTargetCall(f.calls[from], target) then [AnalyzeCall(f, f.calls[from])] + AnalyzeFrom(f, target, from + 1)
    else AnalyzeFrom(f, target, from + 1)
  }

  /** The scan is empty exactly when no call is a target call, and starts
      with the usage of the first target call. */
  lemma AnalyzeFromFirst(f: SourceFile, target: string, from: nat)
    requires from <= |f.calls|
    ensures var us := AnalyzeFrom(f, target, from);
            && (us == [] <==> forall i :: from <= i < |f.calls| ==> !IsTargetCall(f.calls[i], target))
            && (us != [] ==> exists i :: from <= i < |f.calls| && IsTargetCall(f.calls[i], target) && us[0] == AnalyzeCall(f, f.calls[i])
                                         && forall j :: from <= j < i ==> !IsTargetCall(f.calls[j], target))
  {
    AnalyzeFromEmpty(f, target, from);
    if AnalyzeFrom(f, target, from) != [] {
      var i := AnalyzeFromHead(f, target, from);
    }
  }

  lemma {:induction false} AnalyzeFromEmpty(f: SourceFile, target: string, from: nat)
    requires from <= |f.calls|
    decreases |f.calls| - from
    ensures AnalyzeFrom(f, target, from) == [] <==> forall i :: from <= i < |f.calls| ==> !IsTargetCall(f.calls[i], target)
  {
    if from < |f.calls| {
      AnalyzeFromEmpty(f, target, from + 1);
    }
  }

  lemma {:induction false} AnalyzeFromHead(f: SourceFile, target: string, from: nat) returns (i: nat)
    requires from <= |f.calls| && AnalyzeFrom(f, target, from) != []
    decreases |f.calls| - from
    ensures from <= i < |f.calls| && IsTargetCall(f.calls[i], target)
    ensures AnalyzeFrom(f, target, from)[0] == AnalyzeCall(f, f.calls[i])
    ensures forall j :: from <= j < i ==> !IsTargetCall(f.calls[j], target)
  {
    if IsTargetCall(f.calls[from], target) {
      i := from;
    } else {
      i := AnalyzeFromHead(f, target, from + 1);
    }
  }

  // ---- Merging ----

  datatype Merged = Merged(keys: set<string>, locations: map<string, seq<Range>>)

  /** Reference: the union of the usages' keys. */
  function UnionKeys(us: seq<Usage>): set<string> {
    if us == [] then {} else us[0].keysUsed + UnionKeys(us[1..])
  }

  /** Reference: a key's ranges over all usages, concatenated in order. */
  function ConcatRanges(us: seq<Usage>, k: string): seq<Range> {
    if us == [] then [] else Ranges(us[0].keyLocations, k) + ConcatRanges(us[1..], k)
  }

  /** One `forEach` step: add the usage's keys, append its ranges per key. */
  function MergeOne(m: Merged, u: Usage): (r: Merged)
    ensures r.keys == m.keys + u.keysUsed
    ensures forall k :: Ranges(r.locations, k) == Ranges(m.locations, k) + Ranges(u.keyLocations, k)
    ensures Consistent(m.keys, m.locations) && Consistent(u.keysUsed, u.keyLocations) ==> Consistent(r.keys, r.locations)
  {
    Merged(m.keys + u.keysUsed,
           map k | k in m.locations.Keys + u.keyLocations.Keys :: Ranges(m.locations, k) + Ranges(u.keyLocations, k))
  }

  function MergeFrom(m: Merged, us: seq<Usage>): Merged
    decreases |us|
  {
    if us == [] then m else MergeFrom(MergeOne(m, us[0]), us[1..])
  }

  /** `mergeUsageData`. */
  function MergeUsageData(us: seq<Usage>): (m: Merged)
    ensures m.keys == UnionKeys(us)
    ensures forall k :: Ranges(m.locations, k) == ConcatRanges(us, k)
  {
    var m := MergeFrom(Merged({}, map[]), us);
    MergeFromPartial(Merged({}, map[]), us);
    m
  }

  /** Merging gives the union of the keys and, per key, the concatenation of
      the ranges in input order. */
  lemma {:induction false} MergeFromPartial(m: Merged, us: seq<Usage>)
    ensures MergeFrom(m, us).keys == m.keys + UnionKeys(us)
    ensures forall k :: Ranges(MergeFrom(m, us).locations, k) == Ranges(m.locations, k) + ConcatRanges(us, k)
    decreases |us|
  {
    if us != [] {
      MergeFromPartial(MergeOne(m, us[0]), us[1..]);
    }
  }

  /** Merged locations only mention used keys. */
  lemma {:induction false} MergeConsistent(m: Merged, us: seq<Usage>)
    requires Consistent(m.keys, m.locations)
    requires forall i :: 0 <= i < |us| ==> Consistent(us[i].keysUsed, us[i].keyLocations)
    ensures Consistent(MergeFrom(m, us).keys, MergeFrom(m, us).locations)
    decreases |us|
  {
    if us != [] {
      MergeConsistent(MergeOne(m, us[0]), us[1..]);
    }
  }

  // ---- The project scan ----

  /** A project file: its text when it could be read, and its syntax. */
  datatype ProjectFile = ProjectFile(uri: string, text: Option<string>, syntax: SourceFile)

  datatype UsageLocation = UsageLocation(uri: string, range: Range, keysUsed: set<string>, keyLocations: map<string, seq<Range>>)

  /** What one file contributes: nothing when it cannot be read, does not
      mention the key or has no target call; else one location whose range
      is the first target call's and whose keys are merged over all of them. */
  function FileUsage(file: ProjectFile, key: string): (r: Option<UsageLocation>)
    ensures r.Some? <==> file.text.Some? && Contains(file.text.value, key)
                         && exists i :: 0 <= i < |file.syntax.calls| && IsTargetCall(file.syntax.calls[i], key)
    ensures r.Some? ==> r.value.uri == file.uri && Consistent(r.value.keysUsed, r.value.keyLocations)
    ensures r.Some? ==> exists i :: 0 <= i < |file.syntax.calls| && IsTargetCall(file.syntax.calls[i], key)
                                    && r.value.range == file.syntax.calls[i].range
                                    && forall j :: 0 <= j < i ==> !IsTargetCall(file.syntax.calls[j], key)
  {
    if file.text.None? || !Contains(file.text.value, key) then None
    else
      var us := AnalyzeFile(file.syntax, key);
      if us == [] then None
      else
        var m := MergeUsageData(us);
        MergeConsistent(Merged({}, map[]), us);
        Some(UsageLocation(file.uri, us[0].range, m.keys, m.locations))
  }

  /** `findUsagesOfDictionary`: the files' contributions, in file order. */
  function FindUsagesOfDictionary(files: seq<ProjectFile>, key: string): (r: seq<UsageLocation>)
    ensures |r| <= |files|
    ensures forall u :: u in r <==> exists j :: 0 <= j < |files| && FileUsage(files[j], key) == Some(u)
  {
    var found := FileUsages(files, key);
    var r := Somes(found);
    forall u ensures u in r <==> exists j :: 0 <= j < |files| && FileUsage(files[j], key) == Some(u) {
      if u in r {
        var j :| 0 <= j < |found| && found[j] == Some(u);
      }
      if exists j :: 0 <= j < |files| && FileUsage(files[j], key) == Some(u) {
        var j :| 0 <= j < |files| && FileUsage(files[j], key) == Some(u);
        assert found[j] == Some(u);
      }
    }
    r
  }

  function FileUsages(files: seq<ProjectFile>, key: string): (r: seq<Option<UsageLocation>>)
    ensures |r| == |files| && forall j :: 0 <= j < |files| ==> r[j] == FileUsage(files[j], key)
  {
    seq(|files|, j requires 0 <= j < |files| => FileUsage(files[j], key))
  }

  /** Only the first property name of a chain is recorded: `content.a.b`
      records "a", never "a.b". */
  lemma ChainRecordsFirstSegment()
    ensures
      var r0 := Range(Pos(0, 0), Pos(0, 0));
      var f := SourceFile(
        [CallSite(Ident("useIntlayer"), [Literal("app")], r0, BindName("content", 0))],
        [Identifier("content", r0, Declaration),
         Identifier("content", r0, MemberObject(Token("a", r0), [Token("b", r0)]))],
        [], None, []);
      AnalyzeCall(f, f.calls[0]).keysUsed == {"a"}
  {
    var r0 := Range(Pos(0, 0), Pos(0, 0));
    var ids := [Identifier("content", r0, Declaration),
                Identifier("content", r0, MemberObject(Token("a", r0), [Token("b", r0)]))];
    var f := SourceFile([CallSite(Ident("useIntlayer"), [Literal("app")], r0, BindName("content", 0))], ids, [], None, []);
    var u := AnalyzeCall(f, f.calls[0]);
    assert !IsReference(ids, 0, "content", 0);
    assert IsReference(ids, 1, "content", 0);
    assert ReferenceKey(ids[1]) == Some(("a", r0));
    assert "a" in u.keysUsed;
    forall k | k in u.keysUsed ensures k == "a" {
      var j :| 0 <= j < |ids| && IsReference(ids, j, "content", 0) && ReferenceKey(ids[j]).Some? && ReferenceKey(ids[j]).value.0 == k;
      assert j == 1;
    }
  }
}
