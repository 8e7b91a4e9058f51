/** "Go to definition" inside a content declaration file
    (src/providers/intlayerContentDefinitionProvider.ts): clicking the
    dictionary key, or the `key` property, lists where the dictionary is
    used; clicking a content field lists where that field is read. */
module ContentDefinition {
  import opened Wrappers
  import opened Text
  import opened Syntax
  import opened FindUsages
  import opened KeyDeclaration
  import TtlCache

  /** Usages found for a `project:key` are reused for five minutes. */
  const CacheTtl: int := 5 * 60 * 1000

  /** What was clicked: the declared key and the field, `"key"` for the key itself. */
  datatype Target = Target(dictionaryKey: string, clickedField: string)

  /** `replace(/^['"]|['"]$/g, "")`: one leading quote, then one trailing
      quote if a character remains after the leading one. */
  function StripWordQuotes(w: string): (r: string)
    ensures var a := if |w| > 0 && IsQuote(w[0]) then 1 else 0;
            exists b :: a <= b <= |w| && r == w[a..b] && (b == |w| - 1 || b == |w|)
    ensures |w| >= 2 && IsQuote(w[0]) && IsQuote(w[|w| - 1]) ==> r == w[1..|w| - 1]
    ensures (|w| == 0 || !IsQuote(w[0])) && (|w| == 0 || !IsQuote(w[|w| - 1])) ==> r == w
  {
    var a := if |w| > 0 && IsQuote(w[0]) then 1 else 0;
    var b := if |w| > a && IsQuote(w[|w| - 1]) then |w| - 1 else |w|;
    w[a..b]
  }

  /** A word written between quotes, of either kind, is the text inside. */
  lemma QuotedWord(x: string, p: char, q: char)
    requires IsQuote(p) && IsQuote(q)
    ensures StripWordQuotes([p] + x + [q]) == x
  {
    var w := [p] + x + [q];
    assert w[1..|w| - 1] == x;
  }

  /** `getTargetKeyAndPathFromDocument`; `word` is the text of the word
      range at the cursor, if there is one. */
  function TargetOf(text: string, word: Option<string>): (r: Option<Target>)
    ensures r.Some? <==> FindKeyMatch(text, 0).Some? && word.Some?
    ensures r.Some? ==> r.value.dictionaryKey == FindKeyMatch(text, 0).value.key
    ensures r.Some? ==>
              var w := StripWordQuotes(word.value);
              (r.value.clickedField == "key" <==> w == "key" || w == r.value.dictionaryKey)
              && (r.value.clickedField != "key" ==> r.value.clickedField == w)
  {
    match FindKeyMatch(text, 0)
    case None => None
    case Some(m) =>
      match word
      case None => None
      case Some(raw) =>
        var w := StripWordQuotes(raw);
        if w == m.key then Some(Target(m.key, "key"))
        else if w == "key" then Some(Target(m.key, "key"))
        else Some(Target(m.key, w))
  }

  datatype Location = Location(uri: string, range: Range)

  /** The locations one usage offers for a field. */
  function UsageTargets(u: UsageLocation, field: string): (r: seq<Location>)
    ensures field == "key" ==> r == [Location(u.uri, u.range)]
    ensures field != "key" && Ranges(u.keyLocations, field) != [] ==>
              |r| == |Ranges(u.keyLocations, field)|
              && forall i :: 0 <= i < |r| ==> r[i] == Location(u.uri, Ranges(u.keyLocations, field)[i])
    ensures field != "key" && Ranges(u.keyLocations, field) == [] ==>
              r == (if All in u.keysUsed then [Location(u.uri, u.range)] else [])
    ensures forall l :: l in r ==> l.uri == u.uri
  {
    if field == "key" then [Location(u.uri, u.range)]
    else
      var ranges := Ranges(u.keyLocations, field);
      if |ranges| > 0 then seq(|ranges|, i requires 0 <= i < |ranges| => Location(u.uri, ranges[i]))
      else if All in u.keysUsed then [Location(u.uri, u.range)]
      else []
  }

  /** The locations of all usages, usage by usage. */
  function Targets(us: seq<UsageLocation>, field: string): (r: seq<Location>)
    ensures forall l :: l in r <==> exists i :: 0 <= i < |us| && l in UsageTargets(us[i], field)
  {
    if us == [] then []
    else
      var rest := Targets(us[1..], field);
      assert forall i :: 1 <= i < |us| ==> us[i] == us[1..][i - 1];
      UsageTargets(us[0], field) + rest
  }

  /** Clicking the key offers exactly one location per usage, at its call. */
  lemma {:induction false} KeyTargetsOnePerUsage(us: seq<UsageLocation>)
    ensures |Targets(us, "key")| == |us|
    ensures forall i :: 0 <= i < |us| ==> Targets(us, "key")[i] == Location(us[i].uri, us[i].range)
  {
    if us != [] {
      KeyTargetsOnePerUsage(us[1..]);
    }
  }

  /** The outcome of a request: the locations (`None` for `null`), or the
      error a failed scan throws; and the cache afterwards. */
  datatype Outcome = Outcome(result: Result<Option<seq<Location>>>, cache: TtlCache.Cache<seq<UsageLocation>>)

  /** The request names a project and a target, so the provider looks usages up. */
  predicate Proceeds(text: string, projectDir: Option<string>, word: Option<string>) {
    projectDir.Some? && projectDir.value != "" && TargetOf(text, word).Some?
  }

  /** The cache entry a request reads: the project root and the dictionary key. */
  function UsageKey(text: string, projectDir: Option<string>, word: Option<string>): string
    requires Proceeds(text, projectDir, word)
  {
    projectDir.value + ":" + TargetOf(text, word).value.dictionaryKey
  }

  /** What the provider answers once the usages are known: the locations,
      or `null` when there are none. */
  function Answer(us: seq<UsageLocation>, field: string): (r: Option<seq<Location>>)
    ensures r.None? <==> Targets(us, field) == []
    ensures r.Some? ==> r.value == Targets(us, field)
  {
    var locations := Targets(us, field);
    if us == [] || locations == [] then None else Some(locations)
  }

  /** `provideDefinition`. The project root, the word at the cursor, the
      clock and the project files (`None` when the scan throws) are given.
      A fresh cache entry decides and leaves the cache alone; otherwise the
      scan decides and is stored with the current time. */
  function ProvideDefinition(cache: TtlCache.Cache<seq<UsageLocation>>, text: string, projectDir: Option<string>,
                             word: Option<string>, now: int, files: Option<seq<ProjectFile>>): (r: Outcome)
    ensures projectDir.None? || projectDir.value == "" || TargetOf(text, word).None? ==>
              r == Outcome(Success(None), cache)
    ensures r.result.Failure? ==> r.cache == cache && files.None?
    ensures r.result.Success? && r.result.value.Some? ==>
              var t := TargetOf(text, word).value;
              var key := projectDir.value + ":" + t.dictionaryKey;
              r.result.value.value != [] && key in r.cache
              && r.result.value.value == Targets(r.cache[key].data, t.clickedField)
    ensures forall k :: k in r.cache && (k !in cache || r.cache[k] != cache[k]) ==>
              projectDir.Some? && TargetOf(text, word).Some?
              && k == projectDir.value + ":" + TargetOf(text, word).value.dictionaryKey && r.cache[k].timestamp == now
    ensures Proceeds(text, projectDir, word) && TtlCache.Fresh(cache, UsageKey(text, projectDir, word), now, CacheTtl) ==>
              r == Outcome(Success(Answer(cache[UsageKey(text, projectDir, word)].data, TargetOf(text, word).value.clickedField)), cache)
    ensures Proceeds(text, projectDir, word) && !TtlCache.Fresh(cache, UsageKey(text, projectDir, word), now, CacheTtl)
            && files.Some? ==>
              var usages := FindUsagesOfDictionary(files.value, TargetOf(text, word).value.dictionaryKey);
              r.result == Success(Answer(usages, TargetOf(text, word).value.clickedField))
              && r.cache == cache[UsageKey(text, projectDir, word) := TtlCache.Stamped(now, usages)]
    ensures Proceeds(text, projectDir, word) && !TtlCache.Fresh(cache, UsageKey(text, projectDir, word), now, CacheTtl)
            && files.None? ==>
              r.result.Failure? && r.cache == cache
  {
    if projectDir.None? || projectDir.value == "" then Outcome(Success(None), cache)
    else
      match TargetOf(text, word)
      case None => Outcome(Success(None), cache)
      case Some(t) =>
        var key := projectDir.value + ":" + t.dictionaryKey;
        var scan := if files.Some? then Some(FindUsagesOfDictionary(files.value, t.dictionaryKey)) else None;
        var fetched := TtlCache.Fetch(cache, key, now, CacheTtl, scan);
        match fetched.data
        case None => Outcome(Failure("findUsagesOfDictionary failed"), cache)
        case Some(usages) =>
          assert key in fetched.cache && fetched.cache[key].data == usages;
          Outcome(Success(Answer(usages, t.clickedField)), fetched.cache)
  }

  /** Within five minutes of a scan the cached usages decide, even when the
      project has changed since, and the cache is left as it is. */
  lemma CachedTargetsDecide(cache: TtlCache.Cache<seq<UsageLocation>>, text: string, dir: string, word: string,
                            now: int, files: Option<seq<ProjectFile>>, t: Target)
    requires dir != "" && TargetOf(text, Some(word)) == Some(t)
    requires TtlCache.Fresh(cache, dir + ":" + t.dictionaryKey, now, CacheTtl)
    ensures ProvideDefinition(cache, text, Some(dir), Some(word), now, files)
            == Outcome(Success(Answer(cache[dir + ":" + t.dictionaryKey].data, t.clickedField)), cache)
  {
  }

  /** A second request within five minutes of a successful scan gets the
      same answer as the first, whatever a new scan would find. */
  lemma {:induction false} RepeatWithinTtlAgrees(cache: TtlCache.Cache<seq<UsageLocation>>, text: string, dir: string,
                                                 word: string, now: int, later: int, files: seq<ProjectFile>,
                                                 files': Option<seq<ProjectFile>>)
    requires dir != "" && TargetOf(text, Some(word)).Some?
    requires !TtlCache.Fresh(cache, dir + ":" + TargetOf(text, Some(word)).value.dictionaryKey, now, CacheTtl)
    requires now <= later < now + CacheTtl
    ensures var first := ProvideDefinition(cache, text, Some(dir), Some(word), now, Some(files));
            ProvideDefinition(first.cache, text, Some(dir), Some(word), later, files') == first
  {
    var t := TargetOf(text, Some(word)).value;
    var key := dir + ":" + t.dictionaryKey;
    var first := ProvideDefinition(cache, text, Some(dir), Some(word), now, Some(files));
    var usages := FindUsagesOfDictionary(files, t.dictionaryKey);
    assert first.cache[key] == TtlCache.Stamped(now, usages);
    CachedTargetsDecide(first.cache, text, dir, word, later, files', t);
  }

  /** A field no usage reads, in a project without whole-content reads,
      offers nothing. */
  lemma {:induction false} UnreadFieldHasNoTargets(us: seq<UsageLocation>, field: string)
    requires field != "key"
    requires forall i :: 0 <= i < |us| ==> Ranges(us[i].keyLocations, field) == [] && All !in us[i].keysUsed
    ensures Targets(us, field) == []
  {
    if us != [] {
      UnreadFieldHasNoTargets(us[1..], field);
    }
  }
}
