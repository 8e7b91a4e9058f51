/** Resolution of dictionary content to the value a component sees
    (src/utils/intlayerValueResolver.ts): structural wrappers are unwrapped,
    translation nodes pick a locale, and accessor segments of a path are
    ignored. */
module ValueResolver {
  import opened Wrappers
  import opened Content
  import Lists

  /** Node types whose payload sits under a field of the same name (or `content`). */
  const WrapperTypes: seq<string> := ["markdown", "html", "insertion", "content"]

  /** Path segments that name accessors on an Intlayer node, not content keys. */
  predicate IsAccessorSegment(key: string) {
    key == "use" || key == "value" || key == "raw"
  }

  predicate IsContentKey(key: string) { !IsAccessorSegment(key) }

  /** The accessors the editor providers strip from the end of a path. */
  predicate IsValueAccessor(key: string) { key == "value" || key == "raw" }

  predicate EndsWithValueAccessor(path: seq<string>) {
    |path| > 0 && IsValueAccessor(path[|path| - 1])
  }

  /** Removes exactly one trailing "value" or "raw", so `a.value.value`
      keeps its first `value`. */
  function StripValueAccessor(path: seq<string>): (r: seq<string>)
    ensures |path| - 1 <= |r| <= |path| && r == path[..|r|]
    ensures |r| < |path| <==> EndsWithValueAccessor(path)
  {
    if EndsWithValueAccessor(path) then path[..|path| - 1] else path
  }

  /** An object whose `nodeType` is one of the wrapper types. */
  predicate IsWrapper(v: Json) {
    IsObjectLike(v) && Member(v, "nodeType").Str? && Member(v, "nodeType").s in WrapperTypes
  }

  /** A wrapper the unwrapping loop can step into: its own-named field or its
      `content` field is defined. */
  predicate CanUnwrap(v: Json) {
    IsWrapper(v) && (Member(v, Member(v, "nodeType").s) != Undefined || Member(v, "content") != Undefined)
  }

  /** An object with `nodeType === "translation"` and a truthy `translation` field. */
  predicate IsTranslationNode(v: Json) {
    IsObjectLike(v) && Member(v, "nodeType") == Str("translation") && Truthy(Member(v, "translation"))
  }

  /** The unwrapping loop: step into the own-named field, else into
      `content`, until the value is no wrapper or a wrapper with neither. */
  function Unwrap(v: Json): (r: Json)
    decreases Size(v)
    ensures Size(r) <= Size(v)
    ensures !CanUnwrap(r)
    ensures !CanUnwrap(v) ==> r == v
  {
    if IsWrapper(v) then
      var own := Member(v, Member(v, "nodeType").s);
      if own != Undefined then Unwrap(own)
      else if Member(v, "content") != Undefined then Unwrap(Member(v, "content"))
      else v
    else v
  }

  /** `null` or `undefined`: the values `??` falls through. */
  predicate Nullish(v: Json) { v.Null? || v.Undefined? }

  /** `tr[locale] ?? tr["en"] ?? Object.values(tr)[0]`: the locale's entry
      unless it is null or undefined, then the English entry under the same
      condition, then the first entry. A defined but falsy entry such as ""
      is kept. */
  function PickLocale(tr: Json, locale: string): (r: Json)
    ensures Size(r) <= Size(tr)
    ensures !Nullish(Member(tr, locale)) ==> r == Member(tr, locale)
    ensures Nullish(Member(tr, locale)) && !Nullish(Member(tr, "en")) ==> r == Member(tr, "en")
    ensures Nullish(Member(tr, locale)) && Nullish(Member(tr, "en")) ==> r == First(Values(tr))
  {
    Coalesce(Member(tr, locale), Coalesce(Member(tr, "en"), First(Values(tr))))
  }

  /** `resolveIntlayerNode(node, locale)`. */
  function ResolveNode(node: Json, locale: string): (r: Json)
    decreases Size(node)
    ensures !Truthy(node) ==> r == node
    ensures !IsTranslationNode(r) && !CanUnwrap(r)
  {
    if !Truthy(node) then node
    else
      var current := Unwrap(node);
      if IsTranslationNode(current) then ResolveNode(PickLocale(Member(current, "translation"), locale), locale)
      else current
  }

  /** Resolving is idempotent: a resolved value is already fully resolved. */
  lemma ResolveIdempotent(node: Json, locale: string)
    ensures ResolveNode(ResolveNode(node, locale), locale) == ResolveNode(node, locale)
  {
    var r := ResolveNode(node, locale);
    assert Unwrap(r) == r;
  }

  /** The key walk of `getValueFromPath`, skipping accessor segments wherever
      they occur. */
  function WalkSkipping(v: Json, path: seq<string>): (r: Option<Json>)
    decreases path
  {
    if path == [] then Some(v)
    else if IsAccessorSegment(path[0]) then WalkSkipping(v, path[1..])
    else if IsObjectLike(v) && HasKey(v, path[0]) then WalkSkipping(Member(v, path[0]), path[1..])
    else None
  }

  /** The content keys of a path, in order. */
  function ContentKeys(path: seq<string>): (r: seq<string>)
    ensures forall i :: 0 <= i < |r| ==> IsContentKey(r[i])
  {
    Lists.Filter(path, IsContentKey)
  }

  /** Skipping accessor segments is walking the path with them removed. */
  lemma {:induction false} WalkSkippingIsFilteredWalk(v: Json, path: seq<string>)
    ensures WalkSkipping(v, path) == Walk(v, ContentKeys(path))
    decreases path
  {
    if path != [] {
      assert path == [path[0]] + path[1..];
      Lists.FilterAppend([path[0]], path[1..], IsContentKey);
      if IsAccessorSegment(path[0]) {
        assert Lists.Filter([path[0]], IsContentKey) == [];
        WalkSkippingIsFilteredWalk(v, path[1..]);
      } else {
        assert Lists.Filter([path[0]], IsContentKey) == [path[0]];
        assert ContentKeys(path) == [path[0]] + ContentKeys(path[1..]);
        if IsObjectLike(v) && HasKey(v, path[0]) {
          WalkSkippingIsFilteredWalk(Member(v, path[0]), path[1..]);
        }
      }
    }
  }

  /** `getValueFromPath(content, path, locale)`: `null` when a key is missing
      or a value on the way is not an object. */
  function GetValueFromPath(content: Json, path: seq<string>, locale: string): (r: Json)
    ensures Walk(content, ContentKeys(path)).None? ==> r == Null
    ensures Walk(content, ContentKeys(path)).Some? ==> r == ResolveNode(Walk(content, ContentKeys(path)).value, locale)
  {
    WalkSkippingIsFilteredWalk(content, path);
    match WalkSkipping(content, path)
    case None => Null
    case Some(v) => ResolveNode(v, locale)
  }

  /** The result depends only on the content keys of the path: a missing key
      gives null, otherwise the resolved value at the filtered path. An
      effective path that is empty resolves the content itself. */
  lemma ValueIsFilteredLookup(content: Json, path: seq<string>, locale: string)
    ensures Walk(content, ContentKeys(path)).None? ==> GetValueFromPath(content, path, locale) == Null
    ensures Walk(content, ContentKeys(path)).Some? ==>
              GetValueFromPath(content, path, locale) == ResolveNode(Walk(content, ContentKeys(path)).value, locale)
    ensures ContentKeys(path) == [] ==> GetValueFromPath(content, path, locale) == ResolveNode(content, locale)
  {
    WalkSkippingIsFilteredWalk(content, path);
  }

  lemma AccessorHasNoKeys(p: seq<string>, q: seq<string>, accessor: string)
    requires IsAccessorSegment(accessor)
    ensures ContentKeys(p + [accessor] + q) == ContentKeys(p + q)
  {
    Lists.FilterAppend(p + [accessor], q, IsContentKey);
    Lists.FilterAppend(p, [accessor], IsContentKey);
    Lists.FilterAppend(p, q, IsContentKey);
    assert Lists.Filter([accessor], IsContentKey) == [];
    assert Lists.Filter(p + [accessor], IsContentKey) == Lists.Filter(p, IsContentKey);
  }

  /** Inserting accessor segments anywhere in a path changes nothing. */
  lemma AccessorsIgnored(content: Json, p: seq<string>, q: seq<string>, accessor: string, locale: string)
    requires IsAccessorSegment(accessor)
    ensures GetValueFromPath(content, p + [accessor] + q, locale) == GetValueFromPath(content, p + q, locale)
  {
    AccessorHasNoKeys(p, q, accessor);
    ValueIsFilteredLookup(content, p + [accessor] + q, locale);
    ValueIsFilteredLookup(content, p + q, locale);
  }

  /** A node `{ nodeType: kind, [key]: payload }`. */
  function Tagged(kind: string, key: string, payload: Json): Json {
    Obj([Field("nodeType", Str(kind)), Field(key, payload)])
  }

  lemma TaggedMembers(kind: string, key: string, payload: Json)
    requires key != "nodeType"
    ensures Member(Tagged(kind, key, payload), "nodeType") == Str(kind)
    ensures Member(Tagged(kind, key, payload), key) == payload
  {
    var fs := Tagged(kind, key, payload).fields;
    assert fs[1..] == [Field(key, payload)];
    assert Lookup(fs, key) == Some(1);
  }

  /** A wrapper steps into its own-named payload when that is defined. */
  lemma WrapperStepsIn(kind: string, payload: Json)
    requires kind in WrapperTypes && payload != Undefined
    ensures Unwrap(Tagged(kind, kind, payload)) == Unwrap(payload)
  {
    assert kind != "nodeType";
    TaggedMembers(kind, kind, payload);
  }

  /** A wrapper without its own-named payload falls back to its `content`
      field. */
  lemma WrapperFallsBackToContent(kind: string, payload: Json)
    requires kind in WrapperTypes && kind != "content" && payload != Undefined
    ensures Unwrap(Tagged(kind, "content", payload)) == Unwrap(payload)
  {
    var t := Tagged(kind, "content", payload);
    TaggedMembers(kind, "content", payload);
    assert !HasKey(t, kind);
  }

  /** A translation node resolves to what its picked entry resolves to. */
  lemma TranslationPicksLocale(tr: Json, locale: string)
    requires Truthy(tr)
    ensures var t := Tagged("translation", "translation", tr);
            IsTranslationNode(t) && Unwrap(t) == t
            && ResolveNode(t, locale) == ResolveNode(PickLocale(tr, locale), locale)
  {
    TaggedMembers("translation", "translation", tr);
    assert "translation" !in WrapperTypes;
  }

  /** A wrapper around a translation resolves to the locale's string. */
  lemma WrappedTranslationResolves(kind: string, tr: Json, locale: string)
    requires kind in WrapperTypes && Truthy(tr) && Member(tr, locale).Str?
    ensures ResolveNode(Tagged(kind, kind, Tagged("translation", "translation", tr)), locale) == Member(tr, locale)
  {
    var t := Tagged("translation", "translation", tr);
    var w := Tagged(kind, kind, t);
    assert Unwrap(w) == t by {
      WrapperStepsIn(kind, t);
      TranslationPicksLocale(tr, locale);
    }
    assert ResolveNode(w, locale) == ResolveNode(PickLocale(tr, locale), locale) by {
      TranslationPicksLocale(tr, locale);
    }
    var v := Member(tr, locale);
    assert PickLocale(tr, locale) == v;
    assert Unwrap(v) == v;
  }
}
