/** The unused-content decoration of a content declaration file
    (src/providers/intlayerUnusedDecoration.ts): the declared dictionary key
    is struck through when no file uses the dictionary, and every content
    field no usage reads is struck through otherwise, each with an
    " (unused)" label at the end of its line. */
module UnusedDecoration {
  import opened Wrappers
  import opened Text
  import opened Lists
  import opened Syntax
  import opened Document
  import opened FindUsages
  import opened KeyDeclaration
  import TtlCache

  /** Usages found for a `project:key` are reused for five seconds. */
  const CacheTtl: int := 5 * 1000

  // ---- The keys of the content object ----

  /** A field of the content object: its dotted key and its name node. */
  datatype KeyNode = KeyNode(key: string, node: Token)

  predicate NotQuote(c: char) { !IsQuote(c) }

  /** The name as written with every quote character removed. */
  function StripQuotes(name: string): (r: string)
    ensures forall k :: 0 <= k < |r| ==> !IsQuote(r[k])
    ensures (forall k :: 0 <= k < |name| ==> !IsQuote(name[k])) ==> r == name
  {
    FilterKeepsAll(name, NotQuote);
    var r := Filter(name, NotQuote);
    assert forall k :: 0 <= k < |r| ==> r[k] in r && NotQuote(r[k]);
    r
  }

  /** A nested key is the parent's key, a dot and the name; a key under the
      empty (falsy) prefix is the name alone. */
  function FullKey(prefix: string, name: string): (r: string)
    ensures prefix != "" ==> Under(prefix, r) && r[|prefix| + 1..] == name
    ensures prefix == "" ==> r == name
  {
    if prefix == "" then name else prefix + "." + name
  }

  /** `child` is `parent` followed by a dot and something. */
  predicate Under(parent: string, child: string) {
    |parent| < |child| && child[..|parent| + 1] == parent + "."
  }

  /** `getKeysFromObject`: the keys of every property assignment, in
      property order. */
  function KeysFrom(props: seq<Prop>, prefix: string): (r: seq<KeyNode>)
    decreases props
    ensures prefix != "" ==> forall i :: 0 <= i < |r| ==> Under(prefix, r[i].key)
    ensures forall i :: 0 <= i < |props| && props[i].Assign? ==>
              KeyNode(FullKey(prefix, StripQuotes(props[i].name.text)), props[i].name) in r
  {
    if props == [] then []
    else
      var rest := KeysFrom(props[1..], prefix);
      assert forall i :: 1 <= i < |props| ==> props[i] == props[1..][i - 1];
      PropKeys(props[0], prefix) + rest
  }

  /** The keys one property contributes: none unless it is an assignment;
      its own key first; then, for an object-literal initialiser only, the
      keys of that object under its own key. A `t(…)` call is a leaf. */
  function PropKeys(p: Prop, prefix: string): (r: seq<KeyNode>)
    decreases p
    ensures p.Assign? <==> r != []
    ensures r != [] ==> r[0] == KeyNode(FullKey(prefix, StripQuotes(p.name.text)), p.name)
    ensures |r| > 1 ==> p.init.ObjectLit?
    ensures prefix != "" ==> forall i :: 0 <= i < |r| ==> Under(prefix, r[i].key)
    ensures r != [] && r[0].key != "" ==> forall i :: 1 <= i < |r| ==> Under(r[0].key, r[i].key)
    ensures p.Assign? && p.init.ObjectLit? ==> r[1..] == KeysFrom(p.init.props, r[0].key)
    ensures p.Assign? && !p.init.ObjectLit? ==> |r| == 1
  {
    match p
    case OtherMember(_) => []
    case Assign(name, init) =>
      var full := FullKey(prefix, StripQuotes(name.text));
      if init.Call? && init.callee == Ident("t") then [KeyNode(full, name)]
      else if init.ObjectLit? then
        var nested := KeysFrom(init.props, full);
        UnderNested(prefix, full, nested);
        [KeyNode(full, name)] + nested
      else [KeyNode(full, name)]
  }

  lemma UnderTransitive(a: string, b: string, c: string)
    requires Under(a, b) && Under(b, c)
    ensures Under(a, c)
  {
    assert c[..|a| + 1] == c[..|b| + 1][..|a| + 1];
  }

  lemma UnderNested(prefix: string, full: string, nested: seq<KeyNode>)
    requires prefix != "" ==> Under(prefix, full)
    requires full != "" ==> forall i :: 0 <= i < |nested| ==> Under(full, nested[i].key)
    ensures prefix != "" ==> forall i :: 0 <= i < |nested| ==> Under(prefix, nested[i].key)
  {
    if prefix != "" {
      forall i | 0 <= i < |nested| ensures Under(prefix, nested[i].key) {
        UnderTransitive(prefix, full, nested[i].key);
      }
    }
  }

  /** `b` is a key nested under `a`: `FullKey(a, n)` for some name `n`. */
  predicate NestedUnder(a: string, b: string) {
    a == "" || Under(a, b)
  }

  /** The key of a property assignment of `props` itself. */
  predicate Direct(props: seq<Prop>, prefix: string, k: KeyNode) {
    exists j :: 0 <= j < |props| && props[j].Assign? && k == KeyNode(FullKey(prefix, StripQuotes(props[j].name.text)), props[j].name)
  }

  /** An earlier key has `r[i]` nested under it. */
  predicate HasParent(r: seq<KeyNode>, i: nat)
    requires i < |r|
  {
    exists j :: 0 <= j < i && NestedUnder(r[j].key, r[i].key)
  }

  /** Every key is a property of the object itself or comes after the key
      of the object it is nested in. */
  predicate ParentsFirst(props: seq<Prop>, prefix: string, r: seq<KeyNode>) {
    forall i :: 0 <= i < |r| ==> Direct(props, prefix, r[i]) || HasParent(r, i)
  }

  /** The emitted keys are prefix-closed, parents first. */
  lemma {:induction false} KeysPrefixClosed(props: seq<Prop>, prefix: string)
    ensures ParentsFirst(props, prefix, KeysFrom(props, prefix))
  {
    if props != [] {
      var head := PropKeys(props[0], prefix);
      var rest := KeysFrom(props[1..], prefix);
      KeysPrefixClosed(props[1..], prefix);
      forall i | 0 <= i < |head| + |rest| ensures Direct(props, prefix, (head + rest)[i]) || HasParent(head + rest, i) {
        if i < |head| {
          HeadParentsFirst(props, prefix, rest, i);
        } else {
          TailParentsFirst(props, prefix, head, rest, i);
        }
      }
    }
  }

  lemma HeadParentsFirst(props: seq<Prop>, prefix: string, rest: seq<KeyNode>, i: nat)
    requires props != [] && i < |PropKeys(props[0], prefix)|
    ensures var r := PropKeys(props[0], prefix) + rest;
            Direct(props, prefix, r[i]) || HasParent(r, i)
  {
    var head := PropKeys(props[0], prefix);
    var r := head + rest;
    if i == 0 {
      assert props[0].Assign? && r[0] == KeyNode(FullKey(prefix, StripQuotes(props[0].name.text)), props[0].name);
    } else {
      assert NestedUnder(r[0].key, r[i].key);
    }
  }

  lemma TailParentsFirst(props: seq<Prop>, prefix: string, head: seq<KeyNode>, rest: seq<KeyNode>, i: nat)
    requires props != [] && ParentsFirst(props[1..], prefix, rest) && |head| <= i < |head| + |rest|
    ensures Direct(props, prefix, (head + rest)[i]) || HasParent(head + rest, i)
  {
    var r := head + rest;
    var i' := i - |head|;
    assert r[i] == rest[i'];
    assert Direct(props[1..], prefix, rest[i']) || HasParent(rest, i');
    if Direct(props[1..], prefix, rest[i']) {
      var j :| 0 <= j < |props[1..]| && props[1..][j].Assign?
               && rest[i'] == KeyNode(FullKey(prefix, StripQuotes(props[1..][j].name.text)), props[1..][j].name);
      assert props[j + 1] == props[1..][j];
    } else {
      var j :| 0 <= j < i' && NestedUnder(rest[j].key, rest[i'].key);
      assert r[j + |head|] == rest[j];
    }
  }

  /** Keys come out in property order. */
  lemma {:induction false} KeysFromAppend(a: seq<Prop>, b: seq<Prop>, prefix: string)
    ensures KeysFrom(a + b, prefix) == KeysFrom(a, prefix) + KeysFrom(b, prefix)
  {
    if a == [] {
      assert a + b == b;
    } else {
      assert (a + b)[0] == a[0] && (a + b)[1..] == a[1..] + b;
      KeysFromAppend(a[1..], b, prefix);
    }
  }

  /** Each property's keys form one block, in property order. */
  lemma {:induction false} PropBlock(props: seq<Prop>, prefix: string, i: nat)
    requires i < |props|
    ensures KeysFrom(props, prefix)
            == KeysFrom(props[..i], prefix) + PropKeys(props[i], prefix) + KeysFrom(props[i + 1..], prefix)
  {
    assert props == props[..i] + ([props[i]] + props[i + 1..]);
    KeysFromAppend(props[..i], [props[i]] + props[i + 1..], prefix);
    KeysFromAppend([props[i]], props[i + 1..], prefix);
    assert [props[i]][1..] == [];
    assert KeysFrom([props[i]], prefix) == PropKeys(props[i], prefix) + KeysFrom([], prefix);
  }

  /** An object-literal field's own fields are collected, under its key:
      the collection recurses into nested groups. */
  lemma NestedKeyCollected(props: seq<Prop>, prefix: string, i: nat, j: nat)
    requires i < |props| && props[i].Assign? && props[i].init.ObjectLit?
    requires j < |props[i].init.props| && props[i].init.props[j].Assign?
    ensures var outer := FullKey(prefix, StripQuotes(props[i].name.text));
            var inner := props[i].init.props[j];
            KeyNode(FullKey(outer, StripQuotes(inner.name.text)), inner.name) in KeysFrom(props, prefix)
  {
    var outer := FullKey(prefix, StripQuotes(props[i].name.text));
    var inner := props[i].init.props[j];
    var block := PropKeys(props[i], prefix);
    var k := KeyNode(FullKey(outer, StripQuotes(inner.name.text)), inner.name);
    assert k in KeysFrom(props[i].init.props, outer);
    assert k in block[1..];
    PropBlock(props, prefix, i);
  }

  predicate IsAssignment(p: Prop) { p.Assign? }

  /** Only property assignments contribute keys. */
  lemma {:induction false} KeysFromAssignmentsOnly(props: seq<Prop>, prefix: string)
    ensures KeysFrom(Filter(props, IsAssignment), prefix) == KeysFrom(props, prefix)
  {
    if props != [] {
      KeysFromAssignmentsOnly(props[1..], prefix);
      var rest := Filter(props[1..], IsAssignment);
      var tail := KeysFrom(props[1..], prefix);
      assert KeysFrom(props, prefix) == PropKeys(props[0], prefix) + tail;
      if IsAssignment(props[0]) {
        var f := [props[0]] + rest;
        assert Filter(props, IsAssignment) == f;
        assert f[0] == props[0] && f[1..] == rest;
        assert KeysFrom(f, prefix) == PropKeys(props[0], prefix) + KeysFrom(rest, prefix);
      } else {
        assert Filter(props, IsAssignment) == rest;
        assert PropKeys(props[0], prefix) == [];
        assert [] + tail == tail;
      }
    }
  }

  // ---- Which keys are unused ----

  /** Every key any usage reads. */
  function UsedKeys(usages: seq<UsageLocation>): (r: set<string>)
    ensures forall k :: k in r <==> exists i :: 0 <= i < |usages| && k in usages[i].keysUsed
  {
    if usages == [] then {}
    else
      var rest := UsedKeys(usages[1..]);
      assert forall i :: 1 <= i < |usages| ==> usages[i] == usages[1..][i - 1];
      usages[0].keysUsed + rest
  }

  /** A field is unused when no usage reads its key and none reads the
      whole content; an existence check reads nothing. */
  predicate IsUnused(key: string, used: set<string>) {
    key !in used && All !in used
  }

  /** A struck-through range with its hover text. */
  datatype Flag = Flag(range: Range, hover: string)

  /** What is set on the editor: the struck ranges and, for each, the
      zero-width position of its " (unused)" label. */
  datatype Decorations = Decorations(strikes: seq<Flag>, labels: seq<Pos>)

  const NeverUsed: string := "This dictionary is never used in the project"

  function FieldFlag(k: KeyNode): Flag {
    Flag(k.node.range, "Property '" + k.key + "' is unused")
  }

  /** The flags of the unused fields, in field order. */
  function FieldFlags(fields: seq<KeyNode>, used: set<string>): (r: seq<Flag>)
    ensures |r| <= |fields|
    ensures forall f :: f in r <==> exists i :: 0 <= i < |fields| && IsUnused(fields[i].key, used) && f == FieldFlag(fields[i])
  {
    if fields == [] then []
    else
      var rest := FieldFlags(fields[1..], used);
      assert forall i :: 1 <= i < |fields| ==> fields[i] == fields[1..][i - 1];
      if IsUnused(fields[0].key, used) then [FieldFlag(fields[0])] + rest else rest
  }

  /** The strike on the matched `key: '…'` text, found again with `indexOf`. */
  function KeyFlag(text: string, m: KeyMatch): (r: seq<Flag>)
    requires m.start + m.length <= |text|
    ensures |r| <= 1
  {
    match IndexOf(text, Matched(text, m), 0)
    case None => []
    case Some(i) => [Flag(Range(PositionAt(text, i), PositionAt(text, i + m.length)), NeverUsed)]
  }

  /** The key strike covers the match itself. */
  lemma KeyFlagAtStart(text: string, m: KeyMatch)
    requires FindKeyMatch(text, 0) == Some(m)
    ensures m.start + m.length <= |text|
    ensures KeyFlag(text, m) == [Flag(Range(PositionAt(text, m.start), PositionAt(text, m.start + m.length)), NeverUsed)]
  {
    var i := IndexOf(text, Matched(text, m), 0);
    assert i == Some(m.start) by { IndexOfMatchIsStart(text, m); }
  }

  /** The labels: one at the end of each struck range's first line. */
  function Labels(text: string, flags: seq<Flag>): (r: seq<Pos>)
    ensures |r| == |flags| && forall i :: 0 <= i < |flags| ==> r[i] == LineEnd(text, flags[i].range.start.line)
  {
    seq(|flags|, i requires 0 <= i < |flags| => LineEnd(text, flags[i].range.start.line))
  }

  /** The decisions of `updateUnusedDecorations` once usages are known: an
      unused dictionary strikes only its key; a used one strikes the unused
      fields. */
  function Decide(text: string, m: KeyMatch, usages: seq<UsageLocation>, fields: seq<KeyNode>): (r: Decorations)
    requires FindKeyMatch(text, 0) == Some(m)
    ensures |r.labels| == |r.strikes|
    ensures forall i :: 0 <= i < |r.strikes| ==> r.labels[i] == LineEnd(text, r.strikes[i].range.start.line)
    ensures usages == [] ==>
              r.strikes == [Flag(Range(PositionAt(text, m.start), PositionAt(text, m.start + m.length)), NeverUsed)]
    ensures usages != [] ==>
              forall f :: f in r.strikes <==>
                exists i :: 0 <= i < |fields| && IsUnused(fields[i].key, UsedKeys(usages)) && f == FieldFlag(fields[i])
  {
    var strikes :=
      if usages == [] then
        KeyFlagAtStart(text, m);
        KeyFlag(text, m)
      else FieldFlags(fields, UsedKeys(usages));
    Decorations(strikes, Labels(text, strikes))
  }

  // ---- The content object ----

  predicate IsDictionaryObject(o: seq<Prop>) {
    GetProperty(o, "key").Some? && GetProperty(o, "content").Some?
  }

  /** The first object literal, in document order, with both a `key` and a
      `content` member. */
  function DictionaryObject(objects: seq<seq<Prop>>): (r: Option<seq<Prop>>)
    ensures r.Some? ==> exists i :: 0 <= i < |objects| && objects[i] == r.value && IsDictionaryObject(r.value)
                                    && forall j :: 0 <= j < i ==> !IsDictionaryObject(objects[j])
    ensures r.None? ==> forall j :: 0 <= j < |objects| ==> !IsDictionaryObject(objects[j])
  {
    if objects == [] then None
    else if IsDictionaryObject(objects[0]) then Some(objects[0])
    else
      var r := DictionaryObject(objects[1..]);
      assert forall j :: 1 <= j < |objects| ==> objects[j] == objects[1..][j - 1];
      r
  }

  /** The keys of the dictionary object's `content` when it is assigned an
      object literal; none otherwise. */
  function ContentFields(file: SourceFile): (r: seq<KeyNode>)
    ensures r != [] ==> exists o, props :: DictionaryObject(file.objectLiterals) == Some(o)
                          && GetProperty(o, "content").Some? && GetProperty(o, "content").value.Assign?
                          && GetProperty(o, "content").value.init == ObjectLit(props) && r == KeysFrom(props, "")
    ensures forall o, n, props ::
              (DictionaryObject(file.objectLiterals) == Some(o)
               && GetProperty(o, "content") == Some(Assign(n, ObjectLit(props)))) ==> r == KeysFrom(props, "")
  {
    match DictionaryObject(file.objectLiterals)
    case None => []
    case Some(o) =>
      match GetProperty(o, "content")
      case Some(Assign(_, ObjectLit(props))) => KeysFrom(props, "")
      case _ => []
  }

  // ---- One update ----

  /** The outcome of an update: the decorations set, or `None` when the
      update returns early and leaves the editor as it was; and the cache. */
  datatype Outcome = Outcome(decorations: Option<Decorations>, cache: TtlCache.Cache<seq<UsageLocation>>)

  /** The update's guards pass: both markers, a project root and a key. */
  predicate Proceeds(text: string, projectDir: Option<string>) {
    Contains(text, "key:") && Contains(text, "content:") && projectDir.Some? && projectDir.value != ""
    && FindKeyMatch(text, 0).Some?
  }

  /** The cache entry an update reads: the project root and the key. */
  function UsageKey(text: string, projectDir: Option<string>): string
    requires Proceeds(text, projectDir)
  {
    projectDir.value + ":" + FindKeyMatch(text, 0).value.key
  }

  /** `updateUnusedDecorations`. The project root, the project files (`None`
      when the scan throws), the clock and the parse of the text are given.
      A fresh cache entry decides; otherwise the scan does and is stored,
      and a failed scan leaves everything as it was. */
  function Update(cache: TtlCache.Cache<seq<UsageLocation>>, text: string, projectDir: Option<string>,
                  now: int, files: Option<seq<ProjectFile>>, file: SourceFile): (r: Outcome)
    ensures !Contains(text, "key:") || !Contains(text, "content:") ==> r == Outcome(None, cache)
    ensures projectDir.None? || projectDir.value == "" ==> r == Outcome(None, cache)
    ensures FindKeyMatch(text, 0).None? ==> r == Outcome(None, cache)
    ensures r.decorations.None? ==> r.cache == cache
    ensures r.decorations.Some? ==>
              Contains(text, "key:") && Contains(text, "content:") && projectDir.Some? && projectDir.value != ""
              && FindKeyMatch(text, 0).Some?
    ensures forall k :: k in r.cache && (k !in cache || r.cache[k] != cache[k]) ==>
              projectDir.Some? && FindKeyMatch(text, 0).Some?
              && k == projectDir.value + ":" + FindKeyMatch(text, 0).value.key && r.cache[k].timestamp == now
    ensures Proceeds(text, projectDir) && TtlCache.Fresh(cache, UsageKey(text, projectDir), now, CacheTtl) ==>
              r == Outcome(Some(Decide(text, FindKeyMatch(text, 0).value, cache[UsageKey(text, projectDir)].data, ContentFields(file))), cache)
    ensures Proceeds(text, projectDir) && !TtlCache.Fresh(cache, UsageKey(text, projectDir), now, CacheTtl) ==>
              (r.decorations.Some? <==> files.Some?)
    ensures Proceeds(text, projectDir) && !TtlCache.Fresh(cache, UsageKey(text, projectDir), now, CacheTtl) && files.Some? ==>
              var usages := FindUsagesOfDictionary(files.value, FindKeyMatch(text, 0).value.key);
              r.decorations == Some(Decide(text, FindKeyMatch(text, 0).value, usages, ContentFields(file)))
              && UsageKey(text, projectDir) in r.cache && r.cache[UsageKey(text, projectDir)] == TtlCache.Stamped(now, usages)
  {
    if !Contains(text, "key:") || !Contains(text, "content:") then Outcome(None, cache)
    else if projectDir.None? || projectDir.value == "" then Outcome(None, cache)
    else
      match FindKeyMatch(text, 0)
      case None => Outcome(None, cache)
      case Some(m) =>
        var cacheKey := projectDir.value + ":" + m.key;
        var scan := if files.Some? then Some(FindUsagesOfDictionary(files.value, m.key)) else None;
        var fetched := TtlCache.Fetch(cache, cacheKey, now, CacheTtl, scan);
        match fetched.data
        case None => Outcome(None, cache)
        case Some(usages) => Outcome(Some(Decide(text, m, usages, ContentFields(file))), fetched.cache)
  }

  /** Within five seconds of a scan the cached usages decide, even when the
      project has changed since. */
  lemma CachedUsagesDecide(cache: TtlCache.Cache<seq<UsageLocation>>, text: string, dir: string, now: int,
                           files: Option<seq<ProjectFile>>, file: SourceFile, m: KeyMatch)
    requires Contains(text, "key:") && Contains(text, "content:") && dir != ""
    requires FindKeyMatch(text, 0) == Some(m)
    requires TtlCache.Fresh(cache, dir + ":" + m.key, now, CacheTtl)
    ensures Update(cache, text, Some(dir), now, files, file)
            == Outcome(Some(Decide(text, m, cache[dir + ":" + m.key].data, ContentFields(file))), cache)
  {
  }

  /** A project without usages strikes only the key, whatever the fields. */
  lemma UnusedDictionaryStrikesOnlyKey(text: string, m: KeyMatch, fields: seq<KeyNode>)
    requires FindKeyMatch(text, 0) == Some(m)
    ensures |Decide(text, m, [], fields).strikes| == 1
    ensures Decide(text, m, [], fields).strikes[0].hover == NeverUsed
  {
  }

  /** An existence check suppresses no field: adding it changes nothing
      for a field whose key is not the sentinel itself. */
  lemma ExistenceCheckSuppressesNothing(key: string, used: set<string>)
    requires key != ExistenceCheck
    ensures IsUnused(key, used + {ExistenceCheck}) == IsUnused(key, used)
  {
    assert All != ExistenceCheck;
  }
}
