/** From a cursor in code to the dictionary entry it reads
    (src/utils/intlayerPathResolver.ts): the property chain ending at the
    cursor, the `useIntlayer`/`getIntlayer` definition of its root variable,
    and the module the accessor function is imported from. All of it is
    line-level text matching. */
module PathResolver {
  import opened Wrappers
  import opened Text
  import Lists

  /** `[a-zA-Z0-9_$]`. */
  predicate IsIdentChar(c: char) { IsWordChar(c) || c == '$' }

  predicate NotQuote(c: char) { !IsQuote(c) }

  // ---- getPropertyChain ----

  /** `[a-zA-Z0-9_$]+(\.[a-zA-Z0-9_$]+)*` matching all of `s`. */
  predicate IsChain(s: string) {
    |s| > 0 && IsIdentChar(s[0]) && IsIdentChar(s[|s| - 1])
    && (forall k :: 0 <= k < |s| ==> IsIdentChar(s[k]) || s[k] == '.')
    && forall k :: 0 <= k < |s| - 1 ==> !(s[k] == '.' && s[k + 1] == '.')
  }

  /** The leftmost start at or after `i` from which the rest of `s` is a chain. */
  function ChainStart(s: string, i: nat): (r: Option<nat>)
    requires i <= |s|
    decreases |s| - i
    ensures r.Some? ==> i <= r.value < |s| && IsChain(s[r.value..])
    ensures forall j :: i <= j < (if r.Some? then r.value else |s|) ==> !IsChain(s[j..])
  {
    if i == |s| then None
    else if IsChain(s[i..]) then Some(i)
    else ChainStart(s, i + 1)
  }

  /** `getPropertyChain(text, endChar)`: the dot-separated segments of the
      longest chain-shaped suffix of the text before `endChar`, or []. */
  function PropertyChain(text: string, endChar: nat): (r: seq<string>)
    ensures forall i :: 0 <= i < |r| ==> r[i] != "" && forall k :: 0 <= k < |r[i]| ==> IsIdentChar(r[i][k])
    ensures var sub := text[..if endChar <= |text| then endChar else |text|];
            r != [] ==> exists i :: 0 <= i < |sub| && Join(r, ".") == sub[i..] && IsChain(sub[i..])
                                    && forall j :: 0 <= j < i ==> !IsChain(sub[j..])
    ensures var sub := text[..if endChar <= |text| then endChar else |text|];
            r == [] ==> forall j :: 0 <= j < |sub| ==> !IsChain(sub[j..])
  {
    var sub := text[..if endChar <= |text| then endChar else |text|];
    match ChainStart(sub, 0)
    case None => []
    case Some(i) =>
      var chain := sub[i..];
      SplitChain(chain, '.');
      SplitPiecesHave(chain, '.', IsIdentChar);
      JoinSplit(chain, '.');
      Split(chain, '.')
  }

  /** Every piece of a split is made of the text's non-separator characters. */
  lemma {:induction false} SplitPiecesHave(s: string, sep: char, p: char -> bool)
    requires forall k :: 0 <= k < |s| ==> s[k] == sep || p(s[k])
    ensures forall i, k :: 0 <= i < |Split(s, sep)| && 0 <= k < |Split(s, sep)[i]| ==> p(Split(s, sep)[i][k])
    decreases |s|
  {
    if |s| > 0 {
      SplitPiecesHave(s[1..], sep, p);
      var rest := Split(s[1..], sep);
      if s[0] != sep {
        var first := [s[0]] + rest[0];
        assert forall k :: 0 < k < |first| ==> first[k] == rest[0][k - 1];
      }
    }
  }

  /** A chain splits into non-empty segments. */
  lemma SplitChain(s: string, sep: char)
    requires |s| > 0 && s[0] != sep && s[|s| - 1] != sep
    requires forall k :: 0 <= k < |s| - 1 ==> !(s[k] == sep && s[k + 1] == sep)
    ensures forall i :: 0 <= i < |Split(s, sep)| ==> Split(s, sep)[i] != ""
  {
    SplitTailNonEmpty(s, sep);
  }

  lemma {:induction false} SplitTailNonEmpty(s: string, sep: char)
    requires |s| > 0 ==> s[|s| - 1] != sep
    requires forall k :: 0 <= k < |s| - 1 ==> !(s[k] == sep && s[k + 1] == sep)
    ensures forall i :: 1 <= i < |Split(s, sep)| ==> Split(s, sep)[i] != ""
    ensures |s| > 0 && s[0] != sep ==> Split(s, sep)[0] != ""
    decreases |s|
  {
    if |s| > 0 {
      var t := s[1..];
      assert forall k :: 0 <= k < |t| ==> t[k] == s[k + 1];
      SplitTailNonEmpty(t, sep);
      if s[0] == sep {
        assert |t| > 0 && t[0] != sep;
      }
    }
  }

  // ---- parseDefinitionLine ----

  /** The regular expression's capture groups: a destructuring list or a
      direct variable, the accessor function and the dictionary key. */
  datatype DefinitionMatch = DefinitionMatch(destructuring: Option<string>, directVar: Option<string>,
                                             functionName: string, key: string)

  /** `[a-zA-Z0-9_$<>\.,\s]`: the characters of a type annotation. */
  predicate IsTypeChar(c: char) {
    IsIdentChar(c) || c == '<' || c == '>' || c == '.' || c == ',' || IsSpace(c)
  }

  predicate NotCloseBrace(c: char) { c != '}' }

  /** `(?:const|let|var)\s+` at `i`: where the binder starts. */
  function DeclarationKeyword(line: string, i: nat): (r: Option<nat>)
    requires i <= |line|
    ensures r.Some? ==> i < r.value <= |line|
  {
    var k := if At(line, i, "const") then i + 5 else if At(line, i, "let") || At(line, i, "var") then i + 3 else i;
    if k == i then None
    else
      var s := RunEnd(line, k, IsSpace);
      if s > k then Some(s) else None
  }

  /** `\{([^}]+)\}` or `([a-zA-Z0-9_$]+)` at `i`: the captures and the end. */
  function Binder(line: string, i: nat): (r: Option<(Option<string>, Option<string>, nat)>)
    requires i <= |line|
    ensures r.Some? ==> i < r.value.2 <= |line|
    ensures r.Some? ==> (r.value.0.Some? && r.value.0.value != "") != (r.value.1.Some? && r.value.1.value != "")
  {
    if i < |line| && line[i] == '{' then
      var close := RunEnd(line, i + 1, NotCloseBrace);
      if close > i + 1 && close < |line| then Some((Some(line[i + 1..close]), None, close + 1)) else None
    else
      var e := RunEnd(line, i, IsIdentChar);
      if e > i then Some((None, Some(line[i..e]), e)) else None
  }

  /** `(?:\s*:\s*[a-zA-Z0-9_$<>\.,\s]+)?\s*=`: the index of the `=`. */
  function AnnotationThenEquals(line: string, i: nat): (r: Option<nat>)
    requires i <= |line|
    ensures r.Some? ==> i <= r.value < |line| && line[r.value] == '='
  {
    var a := RunEnd(line, i, IsSpace);
    if a < |line| && line[a] == ':' then
      var t := RunEnd(line, a + 1, IsTypeChar);
      if t > a + 1 && t < |line| && line[t] == '=' then Some(t) else None
    else if a < |line| && line[a] == '=' then Some(a)
    else None
  }

  /** `\s*(useIntlayer|getIntlayer)\(['"]([^'"]+)['"]\)` after the `=` at `eq`. */
  function AccessorCall(line: string, eq: nat): (r: Option<(string, string)>)
    requires eq < |line|
    ensures r.Some? ==> (r.value.0 == "useIntlayer" || r.value.0 == "getIntlayer")
    ensures r.Some? ==> r.value.1 != "" && forall k :: 0 <= k < |r.value.1| ==> !IsQuote(r.value.1[k])
  {
    var b := RunEnd(line, eq + 1, IsSpace);
    var fn := if At(line, b, "useIntlayer") then "useIntlayer" else if At(line, b, "getIntlayer") then "getIntlayer" else "";
    if fn == "" then None
    else
      var c := b + 11;
      if c + 1 < |line| && line[c] == '(' && IsQuote(line[c + 1]) then
        var k := RunEnd(line, c + 2, NotQuote);
        if k > c + 2 && k + 1 < |line| && IsQuote(line[k]) && line[k + 1] == ')' then Some((fn, line[c + 2..k])) else None
      else None
  }

  function DefinitionMatchAt(line: string, i: nat): (r: Option<DefinitionMatch>)
    requires i <= |line|
    ensures r.Some? ==> r.value.functionName == "useIntlayer" || r.value.functionName == "getIntlayer"
    ensures r.Some? ==> r.value.key != "" && forall k :: 0 <= k < |r.value.key| ==> !IsQuote(r.value.key[k])
    ensures r.Some? ==> (r.value.destructuring.Some? && r.value.destructuring.value != "")
                        != (r.value.directVar.Some? && r.value.directVar.value != "")
  {
    match DeclarationKeyword(line, i)
    case None => None
    case Some(s) =>
      match Binder(line, s)
      case None => None
      case Some((destructuring, directVar, after)) =>
        match AnnotationThenEquals(line, after)
        case None => None
        case Some(eq) =>
          match AccessorCall(line, eq)
          case None => None
          case Some((fn, key)) => Some(DefinitionMatch(destructuring, directVar, fn, key))
  }

  /** The pattern matches at `j` and at no position from `i` up to `j`. */
  predicate LeftmostMatch(line: string, i: nat, j: nat) {
    i <= j <= |line| && DefinitionMatchAt(line, j).Some?
    && forall k :: i <= k < j ==> DefinitionMatchAt(line, k).None?
  }

  /** Two leftmost matches are the same match. */
  lemma LeftmostUnique(line: string, i: nat, j1: nat, j2: nat)
    requires LeftmostMatch(line, i, j1) && LeftmostMatch(line, i, j2)
    ensures j1 == j2
  {
  }

  /** The leftmost match at or after `i`. */
  function FindDefinitionMatch(line: string, i: nat): (r: Option<DefinitionMatch>)
    requires i <= |line|
    decreases |line| - i
    ensures r.Some? ==> exists j :: LeftmostMatch(line, i, j) && DefinitionMatchAt(line, j) == r
    ensures r.None? ==> forall j :: i <= j <= |line| ==> DefinitionMatchAt(line, j).None?
  {
    if DefinitionMatchAt(line, i).Some? then DefinitionMatchAt(line, i)
    else if i == |line| then None
    else FindDefinitionMatch(line, i + 1)
  }

  datatype Definition = Definition(dictionaryKey: string, initialPath: seq<string>, functionName: string)

  /** The pieces of one destructuring entry `original: alias`, split at
      colons; the source trims each piece before use. */
  function EntryPieces(part: string): (r: seq<string>)
    ensures |r| >= 1
  {
    Split(Trim(part), ':')
  }

  /** The dictionary field an entry reads. */
  function Original(part: string): string { Trim(EntryPieces(part)[0]) }

  /** The alias an entry gives, "" when there is none. */
  function Alias(part: string): string {
    var pieces := EntryPieces(part);
    if |pieces| > 1 then Trim(pieces[1]) else ""
  }

  /** The local name an entry binds: `alias || original`. */
  function EffectiveName(part: string): (r: string)
    ensures Alias(part) == "" ==> r == Original(part)
    ensures Alias(part) != "" ==> r == Alias(part)
  {
    if Alias(part) != "" then Alias(part) else Original(part)
  }

  /** The local names a destructuring list binds, entry by entry. */
  function BoundNames(parts: seq<string>): (r: seq<string>)
    ensures |r| == |parts| && forall i :: 0 <= i < |parts| ==> r[i] == EffectiveName(parts[i])
  {
    seq(|parts|, i requires 0 <= i < |parts| => EffectiveName(parts[i]))
  }

  /** What a definition match gives for `target`: a direct binding of the
      target starts at the dictionary root; a destructured entry binding it
      (by its alias, else its name) starts at the entry's original name. */
  function DefinitionFromMatch(m: DefinitionMatch, target: string): (r: Option<Definition>)
    ensures r.Some? ==> r.value.dictionaryKey == m.key && r.value.functionName == m.functionName
    ensures r.Some? ==> |r.value.initialPath| <= 1
    ensures r.Some? && r.value.initialPath == [] ==> m.directVar == Some(target)
    ensures m.directVar == Some(target) && target != "" ==> r.Some? && r.value.initialPath == []
  {
    if m.directVar.Some? && m.directVar.value != "" && m.directVar.value == target then
      Some(Definition(m.key, [], m.functionName))
    else if m.destructuring.Some? && m.destructuring.value != "" then
      var parts := Split(m.destructuring.value, ',');
      var names := BoundNames(parts);
      if target in names then Some(Definition(m.key, [Original(parts[Lists.FirstIndex(names, target)])], m.functionName))
      else None
    else None
  }

  /** For a destructuring, the path is the original name of the first
      entry binding the target. */
  lemma DestructuredBinding(m: DefinitionMatch, parts: seq<string>, target: string, i: nat)
    requires m.directVar.None? && m.destructuring.Some? && m.destructuring.value != ""
    requires parts == Split(m.destructuring.value, ',')
    requires i < |parts| && EffectiveName(parts[i]) == target
    requires forall j :: 0 <= j < i ==> EffectiveName(parts[j]) != target
    ensures DefinitionFromMatch(m, target) == Some(Definition(m.key, [Original(parts[i])], m.functionName))
  {
    FirstBound(parts, target, i);
  }

  lemma FirstBound(parts: seq<string>, target: string, i: nat)
    requires i < |parts| && EffectiveName(parts[i]) == target
    requires forall j :: 0 <= j < i ==> EffectiveName(parts[j]) != target
    ensures target in BoundNames(parts) && Lists.FirstIndex(BoundNames(parts), target) == i
  {
    var names := BoundNames(parts);
    assert names[i] == target;
  }

  /** No entry binds the target: nothing is found. */
  lemma DestructuredMiss(m: DefinitionMatch, parts: seq<string>, target: string)
    requires m.directVar.None? && m.destructuring.Some? && m.destructuring.value != ""
    requires parts == Split(m.destructuring.value, ',')
    requires forall j :: 0 <= j < |parts| ==> EffectiveName(parts[j]) != target
    ensures DefinitionFromMatch(m, target) == None
  {
    NotBound(parts, target);
  }

  lemma NotBound(parts: seq<string>, target: string)
    requires forall j :: 0 <= j < |parts| ==> EffectiveName(parts[j]) != target
    ensures target !in BoundNames(parts)
  {
  }

  /** `parseDefinitionLine(line, targetVar)`: the leftmost definition match
      of the line, read for `target`. */
  function ParseDefinitionLine(line: string, target: string): (r: Option<Definition>)
    ensures r.Some? ==> |r.value.initialPath| <= 1
    ensures (forall j :: 0 <= j <= |line| ==> DefinitionMatchAt(line, j).None?) ==> r == None
    ensures forall j :: LeftmostMatch(line, 0, j) ==> r == DefinitionFromMatch(DefinitionMatchAt(line, j).value, target)
  {
    match FindDefinitionMatch(line, 0)
    case None => None
    case Some(m) =>
      assert forall j :: LeftmostMatch(line, 0, j) ==> DefinitionMatchAt(line, j) == Some(m) by {
        forall j | LeftmostMatch(line, 0, j)
          ensures DefinitionMatchAt(line, j) == Some(m)
        {
          var j' :| LeftmostMatch(line, 0, j') && DefinitionMatchAt(line, j') == Some(m);
          LeftmostUnique(line, 0, j, j');
        }
      }
      DefinitionFromMatch(m, target)
  }

  predicate Identifier(w: string) {
    w != [] && forall k :: 0 <= k < |w| ==> IsWordChar(w[k])
  }

  /** An identifier holds no separator, colon or white space. */
  lemma IdentifierAvoids(w: string, c: char)
    requires Identifier(w) && !IsWordChar(c)
    ensures c !in w
  {
  }

  /** `s` with one space either side trims back to `s`. */
  lemma TrimPaddedBy(x: string)
    requires x != [] && !IsSpace(x[0]) && !IsSpace(x[|x| - 1])
    ensures Trim([' '] + x + [' ']) == x
  {
    var s := [' '] + x + [' '];
    assert s[1..] == x + [' '];
    assert TrimStart(s) == TrimStart(x + [' ']) == x + [' '];
    assert (x + [' '])[..|x|] == x;
    assert TrimEnd(x + [' ']) == TrimEnd(x) == x;
  }

  /** The entry `original: alias` as it stands between the braces. */
  function EntryText(o: string, al: string): string {
    [' '] + (o + [':'] + ([' '] + al)) + [' ']
  }

  /** The pieces of the entry `original: alias`. */
  lemma AliasedEntryPieces(o: string, al: string)
    requires Identifier(o) && Identifier(al)
    ensures EntryPieces(EntryText(o, al)) == [o, [' '] + al]
  {
    var b := [' '] + al;
    var inner := o + [':'] + b;
    assert inner[0] == o[0] && inner[|inner| - 1] == al[|al| - 1];
    TrimPaddedBy(inner);
    assert Trim(EntryText(o, al)) == inner;
    assert EntryPieces(EntryText(o, al)) == Split(inner, ':');
    IdentifierAvoids(o, ':');
    IdentifierAvoids(al, ':');
    SplitNoSep(b, ':');
    SplitAfter(o, ':', b);
  }

  /** The entry `original: alias` reads field `original` and binds `alias`. */
  lemma AliasedEntry(o: string, al: string)
    requires Identifier(o) && Identifier(al)
    ensures Split(EntryText(o, al), ',') == [EntryText(o, al)]
    ensures Original(EntryText(o, al)) == o && EffectiveName(EntryText(o, al)) == al
  {
    var part := EntryText(o, al);
    AliasedEntryPieces(o, al);
    IdentifierUnpadded(o);
    assert Original(part) == Trim(o);
    AliasTrimmed(al);
    assert Alias(part) == Trim([' '] + al) == al;
    IdentifierAvoids(o, ',');
    IdentifierAvoids(al, ',');
    assert ',' !in part;
    SplitNoSep(part, ',');
  }

  lemma AliasTrimmed(al: string)
    requires Identifier(al)
    ensures Trim([' '] + al) == al
  {
    var b := [' '] + al;
    assert b[1..] == al;
    assert IsSpace(b[0]);
    assert TrimStart(b) == TrimStart(al);
    IdentifierUnpadded(al);
  }

  lemma IdentifierUnpadded(w: string)
    requires Identifier(w)
    ensures Trim(w) == w && TrimStart(w) == w
  {
    WordNotSpace(w[0]);
    WordNotSpace(w[|w| - 1]);
    TrimUnpadded(w);
  }

  lemma WordNotSpace(c: char)
    requires IsWordChar(c)
    ensures !IsSpace(c)
  {
  }

  /** `const { original: alias } = useIntlayer('key')`: the alias is what is
      matched, and the original name becomes the path; the original name
      itself is not bound. */
  lemma AliasReadsOriginal(o: string, al: string, functionName: string, key: string)
    requires Identifier(o) && Identifier(al) && o != al
    ensures var m := DefinitionMatch(Some(EntryText(o, al)), None, functionName, key);
            && DefinitionFromMatch(m, al) == Some(Definition(key, [o], functionName))
            && DefinitionFromMatch(m, o) == None
  {
    var part := EntryText(o, al);
    AliasedEntry(o, al);
    var m := DefinitionMatch(Some(part), None, functionName, key);
    DestructuredBinding(m, [part], al, 0);
    DestructuredMiss(m, [part], o);
  }

  /** Text with no surrounding white space trims to itself. */
  lemma TrimUnpadded(s: string)
    requires |s| > 0 && !IsSpace(s[0]) && !IsSpace(s[|s| - 1])
    ensures Trim(s) == s && TrimStart(s) == s
  {
  }

  /** One space either side is trimmed off. */
  lemma TrimPadded(s: string)
    requires |s| >= 3 && IsSpace(s[0]) && IsSpace(s[|s| - 1]) && !IsSpace(s[1]) && !IsSpace(s[|s| - 2])
    ensures Trim(s) == s[1..|s| - 1]
  {
    assert TrimStart(s) == TrimStart(s[1..]) == s[1..];
    assert s[1..][..|s| - 2] == s[1..|s| - 1];
    assert TrimEnd(s[1..]) == TrimEnd(s[1..|s| - 1]) == s[1..|s| - 1];
  }

  // ---- findLocalDefinitionRegex ----

  /** Lines the local search considers. */
  predicate MentionsAccessor(line: string) {
    Contains(line, "useIntlayer") || Contains(line, "getIntlayer")
  }

  /** What one line contributes to the local search. */
  function LocalCandidate(line: string, name: string): Option<Definition> {
    if MentionsAccessor(line) then ParseDefinitionLine(line, name) else None
  }

  /** `r` is what the first line that yields a definition of `name` yields. */
  predicate IsFirstCandidate(lines: seq<string>, name: string, r: Option<Definition>) {
    && (r.Some? ==> exists i :: 0 <= i < |lines| && LocalCandidate(lines[i], name) == r
                               && forall j :: 0 <= j < i ==> LocalCandidate(lines[j], name).None?)
    && (r.None? ==> forall j :: 0 <= j < |lines| ==> LocalCandidate(lines[j], name).None?)
  }

  lemma LocalSearch(lines: seq<string>, name: string, r: Option<Definition>)
    requires r == FirstSome(lines, line => LocalCandidate(line, name))
    ensures IsFirstCandidate(lines, name, r)
  {
    var f := line => LocalCandidate(line, name);
    if r.Some? {
      var i :| 0 <= i < |lines| && f(lines[i]) == r && forall j :: 0 <= j < i ==> f(lines[j]).None?;
      assert LocalCandidate(lines[i], name) == r;
    }
  }

  /** Line `i` is the first line of `lines` that yields a definition of `name`. */
  predicate FirstCandidateLine(lines: seq<string>, name: string, i: nat) {
    i < |lines| && LocalCandidate(lines[i], name).Some?
    && forall j :: 0 <= j < i ==> LocalCandidate(lines[j], name).None?
  }

  /** No line of `lines` yields a definition of `name`. */
  predicate NoCandidateLine(lines: seq<string>, name: string) {
    forall j :: 0 <= j < |lines| ==> LocalCandidate(lines[j], name).None?
  }

  /** The first search result is nothing exactly when no line is a candidate. */
  lemma FirstCandidateNone(lines: seq<string>, name: string, r: Option<Definition>)
    requires IsFirstCandidate(lines, name, r)
    ensures r.None? <==> NoCandidateLine(lines, name)
  {
    if r.Some? {
      var i :| 0 <= i < |lines| && LocalCandidate(lines[i], name) == r;
      assert LocalCandidate(lines[i], name).Some?;
    }
  }

  /** The first search result is what the first candidate line gives. */
  lemma FirstCandidateSome(lines: seq<string>, name: string, r: Option<Definition>, i: nat)
    requires IsFirstCandidate(lines, name, r) && FirstCandidateLine(lines, name, i)
    ensures r == LocalCandidate(lines[i], name)
  {
    assert LocalCandidate(lines[i], name).Some?;
    if r.None? {
      assert false;
    }
    var i' :| 0 <= i' < |lines| && LocalCandidate(lines[i'], name) == r
              && forall j :: 0 <= j < i' ==> LocalCandidate(lines[j], name).None?;
    assert !(i' < i) && !(i < i');
  }

  /** `findLocalDefinitionRegex`: the first line of the document that
      mentions an accessor and parses as a definition of `name`. */
  function FindLocalDefinition(text: string, name: string): (r: Option<Definition>)
    ensures IsFirstCandidate(Split(text, '\n'), name, r)
  {
    var lines := Split(text, '\n');
    var r := FirstSome(lines, line => LocalCandidate(line, name));
    LocalSearch(lines, name, r);
    r
  }

  // ---- findImportSource ----

  predicate NotQuoteChar(c: char) { c != '\'' && c != '"' }

  /** `name` occurs in `s` as a whole word (`\bname\b`). */
  predicate HasWord(s: string, name: string) {
    exists k :: 0 <= k <= |s| - |name| && At(s, k, name)
                && (k == 0 || !IsWordChar(s[k - 1]))
                && (k + |name| == |s| || !IsWordChar(s[k + |name|]))
  }

  /** `\s+from\s+['"]([^'"]+)['"]` at `i`: the module source. */
  function FromClause(text: string, i: nat): (r: Option<string>)
    requires i <= |text|
    ensures r.Some? ==> r.value != "" && forall k :: 0 <= k < |r.value| ==> NotQuoteChar(r.value[k])
  {
    var a := RunEnd(text, i, IsSpace);
    if a > i && At(text, a, "from") then
      var b := RunEnd(text, a + 4, IsSpace);
      if b > a + 4 && b < |text| && IsQuote(text[b]) then
        var e := RunEnd(text, b + 1, NotQuoteChar);
        if e > b + 1 && e < |text| && IsQuote(text[e]) then Some(text[b + 1..e]) else None
      else None
    else None
  }

  /** `\{[^}]*\bname\b[^}]*\}` at `s`, then the `from` clause. */
  function NamedImport(text: string, s: nat, name: string): Option<string>
    requires s < |text|
  {
    var close := RunEnd(text, s + 1, NotCloseBrace);
    if close < |text| && HasWord(text[s + 1..close], name) then FromClause(text, close + 1) else None
  }

  /** `\*\s+as\s+\w+` at `s`, then the `from` clause. */
  function NamespaceImport(text: string, s: nat): Option<string>
    requires s < |text|
  {
    var a := RunEnd(text, s + 1, IsSpace);
    if a > s + 1 && At(text, a, "as") then
      var b := RunEnd(text, a + 2, IsSpace);
      var w := RunEnd(text, b, IsWordChar);
      if b > a + 2 && w > b then FromClause(text, w) else None
    else None
  }

  /** `\w+` at `s`, then the `from` clause. */
  function DefaultImport(text: string, s: nat): Option<string>
    requires s <= |text|
  {
    var w := RunEnd(text, s, IsWordChar);
    if w > s then FromClause(text, w) else None
  }

  /** The import regular expression at `i`: a braced list naming the
      function, a namespace import or a default import, then `from`. */
  function ImportAt(text: string, i: nat, name: string): (r: Option<string>)
    requires i <= |text|
    ensures r.Some? ==> At(text, i, "import")
  {
    if !At(text, i, "import") then None
    else
      var s := RunEnd(text, i + 6, IsSpace);
      if s == i + 6 || s == |text| then None
      else if text[s] == '{' then NamedImport(text, s, name)
      else if text[s] == '*' then NamespaceImport(text, s)
      else DefaultImport(text, s)
  }

  /** `findImportSource(document, functionName)`: the source of the leftmost match. */
  function FindImportSource(text: string, name: string, i: nat): (r: Option<string>)
    requires i <= |text|
    decreases |text| - i
    ensures r.Some? ==> exists j :: i <= j <= |text| && ImportAt(text, j, name) == r
                                    && forall k :: i <= k < j ==> ImportAt(text, k, name).None?
    ensures r.None? ==> forall j :: i <= j <= |text| ==> ImportAt(text, j, name).None?
  {
    if ImportAt(text, i, name).Some? then ImportAt(text, i, name)
    else if i == |text| then None
    else FindImportSource(text, name, i + 1)
  }

  /** `from '<module>'` laid out at `n`, the closing quote at `e`. */
  lemma FromClauseAt(t: string, n: nat, e: nat)
    requires n + 7 < e < |t|
    requires t[n] == ' ' && At(t, n + 1, "from") && t[n + 5] == ' ' && t[n + 6] == '\'' && t[e] == '\''
    requires forall k :: n + 7 <= k < e ==> NotQuoteChar(t[k])
    ensures FromClause(t, n) == Some(t[n + 7..e])
  {
    assert t[n + 1] == t[n + 1..n + 5][0] == 'f';
    RunEndSkips(t, n, n + 1, IsSpace);
    RunEndSkips(t, n + 5, n + 6, IsSpace);
    RunEndSkips(t, n + 7, e, NotQuoteChar);
  }

  /** A `from '<m>'` clause after `a` reads the module `m`. */
  lemma FromClauseOf(a: string, m: string, rest: string)
    requires m != [] && forall k :: 0 <= k < |m| ==> NotQuoteChar(m[k])
    ensures FromClause(a + (" from '" + (m + ("'" + rest))), |a|) == Some(m)
  {
    var t := a + (" from '" + (m + ("'" + rest)));
    FromLayout(a, m, rest);
    FromClauseAt(t, |a|, |a| + 7 + |m|);
  }

  /** Where the pieces of `a from '<m>'<rest>` sit. */
  lemma FromLayout(a: string, m: string, rest: string)
    ensures var t := a + (" from '" + (m + ("'" + rest)));
            var n := |a|;
            && n + 7 + |m| < |t|
            && t[n] == ' ' && At(t, n + 1, "from") && t[n + 5] == ' ' && t[n + 6] == '\'' && t[n + 7 + |m|] == '\''
            && t[n + 7..n + 7 + |m|] == m
            && forall k :: n + 7 <= k < n + 7 + |m| ==> t[k] == m[k - n - 7]
  {
    var v := m + ("'" + rest);
    var u := " from '" + v;
    var t := a + u;
    var n := |a|;
    assert u[..7] == " from '";
    assert t[n..] == u;
    assert t[n + 1..n + 5] == u[1..5];
    assert t[n + 7..] == v;
    assert v[|m|] == '\'';
    assert v[..|m|] == m;
  }

  /** A default import matches whatever the function's name: the first
      import statement decides, even when it does not bind the function. */
  lemma DefaultImportWins(w: string, m: string, name: string)
    requires w != [] && forall k :: 0 <= k < |w| ==> IsWordChar(w[k])
    requires m != [] && forall k :: 0 <= k < |m| ==> NotQuoteChar(m[k])
    ensures FindImportSource("import " + (w + (" from '" + (m + "'"))), name, 0) == Some(m)
  {
    DefaultImportFrom("import " + (w + (" from '" + (m + "'"))), w, m, name);
  }

  /** `DefaultImportWins` for a text known to have that layout. */
  lemma DefaultImportFrom(t: string, w: string, m: string, name: string)
    requires w != [] && forall k :: 0 <= k < |w| ==> IsWordChar(w[k])
    requires m != [] && forall k :: 0 <= k < |m| ==> NotQuoteChar(m[k])
    requires t == "import " + (w + (" from '" + (m + "'")))
    ensures FindImportSource(t, name, 0) == Some(m)
  {
    DefaultImportShape(w, m, t);
    DefaultImportAt(t, |w|, name);
  }

  /** `import <w> from '<m>'` has the layout a default import needs. */
  lemma DefaultImportShape(w: string, m: string, t: string)
    requires w != [] && forall k :: 0 <= k < |w| ==> IsWordChar(w[k])
    requires m != [] && forall k :: 0 <= k < |m| ==> NotQuoteChar(m[k])
    requires t == "import " + (w + (" from '" + (m + "'")))
    ensures 7 + |w| < |t| && At(t, 0, "import") && t[6] == ' ' && t[7 + |w|] == ' '
    ensures forall k :: 7 <= k < 7 + |w| ==> IsWordChar(t[k])
    ensures FromClause(t, 7 + |w|) == Some(m)
  {
    ImportLayout(w, m);
    FromClauseOf("import " + w, m, []);
  }

  /** Where the pieces of `import <w> from '<m>'` sit. */
  lemma ImportLayout(w: string, m: string)
    ensures var t := "import " + (w + (" from '" + (m + "'")));
            && t == ("import " + w) + (" from '" + (m + ("'" + [])))
            && 7 + |w| < |t| && At(t, 0, "import") && t[6] == ' ' && t[7 + |w|] == ' '
            && forall k :: 7 <= k < 7 + |w| ==> t[k] == w[k - 7]
  {
    var b := w + (" from '" + (m + "'"));
    var t := "import " + b;
    assert t[..7] == "import ";
    assert t[7..] == b;
    assert b[|w|] == ' ';
    assert "'" + [] == "'";
  }

  /** `import <word> ` read as a default import at the start of `t`. */
  lemma DefaultImportAt(t: string, len: nat, name: string)
    requires 7 + len < |t| && At(t, 0, "import") && t[6] == ' ' && t[7 + len] == ' ' && len > 0
    requires forall k :: 7 <= k < 7 + len ==> IsWordChar(t[k])
    requires FromClause(t, 7 + len).Some?
    ensures FindImportSource(t, name, 0) == FromClause(t, 7 + len)
  {
    RunEndSkips(t, 6, 7, IsSpace);
    RunEndSkips(t, 7, 7 + len, IsWordChar);
    assert t[7] != '{' && t[7] != '*';
    assert DefaultImport(t, 7) == FromClause(t, 7 + len);
    assert ImportAt(t, 0, name) == FromClause(t, 7 + len);
  }

  // ---- resolveIntlayerPath ----

  datatype Origin = Origin(dictionaryKey: string, fieldPath: seq<string>, moduleSource: Option<string>)

  /** Where the root variable is defined: a matching line of the document
      itself wins; otherwise the line the definition provider reports. */
  function RootDefinition(text: string, root: string, providerLine: Option<string>): (r: Option<Definition>)
    ensures forall i: nat :: FirstCandidateLine(Split(text, '\n'), root, i) ==> r == LocalCandidate(Split(text, '\n')[i], root)
    ensures NoCandidateLine(Split(text, '\n'), root) && providerLine.None? ==> r == None
    ensures NoCandidateLine(Split(text, '\n'), root) && providerLine.Some? ==> r == ParseDefinitionLine(providerLine.value, root)
    ensures r.Some? ==> |r.value.initialPath| <= 1
  {
    var lines := Split(text, '\n');
    FirstCandidateNone(lines, root, FindLocalDefinition(text, root));
    forall i: nat | FirstCandidateLine(lines, root, i)
      ensures FindLocalDefinition(text, root) == LocalCandidate(lines[i], root)
    {
      FirstCandidateSome(lines, root, FindLocalDefinition(text, root), i);
    }
    match FindLocalDefinition(text, root)
    case Some(d) => Some(d)
    case None => if providerLine.Some? then ParseDefinitionLine(providerLine.value, root) else None
  }

  /** The property chain under the cursor: none when there is no word. */
  function CursorChain(lineText: string, wordEnd: Option<nat>): seq<string> {
    if wordEnd.None? then [] else PropertyChain(lineText, wordEnd.value)
  }

  /** The origin a definition of the chain's root gives: the definition's
      initial path followed by the chain's segments after the root, and the
      module its accessor is imported from. */
  function OriginOf(text: string, d: Definition, chain: seq<string>): Origin
    requires chain != []
  {
    Origin(d.dictionaryKey, d.initialPath + chain[1..], FindImportSource(text, d.functionName, 0))
  }

  /** `resolveIntlayerPath`: `wordEnd` is the end character of the word under
      the cursor (None when there is none), `lineText` the cursor's line and
      `providerLine` the line the editor's definition provider reports for
      the root variable. The first document line that defines the root
      wins; the provider's line is read only when no line does. */
  function ResolveIntlayerPath(text: string, lineText: string, wordEnd: Option<nat>,
                               providerLine: Option<string>): (r: Option<Origin>)
    ensures CursorChain(lineText, wordEnd) == [] ==> r == None
    ensures r.Some? ==> var chain := CursorChain(lineText, wordEnd);
                        && chain != [] && |chain| - 1 <= |r.value.fieldPath| <= |chain|
                        && r.value.fieldPath[|r.value.fieldPath| - (|chain| - 1)..] == chain[1..]
    ensures forall i: nat :: CursorChain(lineText, wordEnd) != []
                             && FirstCandidateLine(Split(text, '\n'), CursorChain(lineText, wordEnd)[0], i)
                             ==> r == Some(OriginOf(text, LocalCandidate(Split(text, '\n')[i], CursorChain(lineText, wordEnd)[0]).value, CursorChain(lineText, wordEnd)))
    ensures CursorChain(lineText, wordEnd) != [] && NoCandidateLine(Split(text, '\n'), CursorChain(lineText, wordEnd)[0])
            ==> (r.Some? <==> providerLine.Some? && ParseDefinitionLine(providerLine.value, CursorChain(lineText, wordEnd)[0]).Some?)
    ensures CursorChain(lineText, wordEnd) != [] && NoCandidateLine(Split(text, '\n'), CursorChain(lineText, wordEnd)[0]) && r.Some?
            ==> r == Some(OriginOf(text, ParseDefinitionLine(providerLine.value, CursorChain(lineText, wordEnd)[0]).value, CursorChain(lineText, wordEnd)))
  {
    var chain := CursorChain(lineText, wordEnd);
    if chain == [] then None
    else match RootDefinition(text, chain[0], providerLine)
      case None => None
      case Some(d) =>
        assert (d.initialPath + chain[1..])[|d.initialPath|..] == chain[1..];
        Some(OriginOf(text, d, chain))
  }

  /** A definition found in the document itself makes the definition
      provider's answer irrelevant. */
  lemma LocalDefinitionWins(text: string, lineText: string, wordEnd: Option<nat>, p1: Option<string>, p2: Option<string>)
    requires CursorChain(lineText, wordEnd) != []
    requires !NoCandidateLine(Split(text, '\n'), CursorChain(lineText, wordEnd)[0])
    ensures ResolveIntlayerPath(text, lineText, wordEnd, p1) == ResolveIntlayerPath(text, lineText, wordEnd, p2)
  {
    var lines := Split(text, '\n');
    var root := CursorChain(lineText, wordEnd)[0];
    var i :| 0 <= i < |lines| && LocalCandidate(lines[i], root).Some?;
    var first := FirstCandidateIndex(lines, root, i);
  }

  /** Some line up to `i` is the first candidate line. */
  lemma {:induction false} FirstCandidateIndex(lines: seq<string>, name: string, i: nat) returns (f: nat)
    requires i < |lines| && LocalCandidate(lines[i], name).Some?
    ensures f <= i && FirstCandidateLine(lines, name, f)
    decreases i
  {
    if exists j :: 0 <= j < i && LocalCandidate(lines[j], name).Some? {
      var j :| 0 <= j < i && LocalCandidate(lines[j], name).Some?;
      f := FirstCandidateIndex(lines, name, j);
    } else {
      f := i;
    }
  }
}
