/** The "test" command's missing-translation report: grouping the loaded
    dictionaries by key (src/testCommand.ts), the lines of the report in its
    output-channel form (src/testCommand.ts) and in its markdown-document
    form (src/commands/testCommand.ts), and the gate that decides whether a
    report is shown at all. Computing the missing translations belongs to the
    Intlayer CLI and is a parameter here. */
module MissingReport {
  import opened Wrappers
  import opened Text
  import opened Lists
  import opened LogFunctions

  // ---------------------------------------------------------------------
  // Grouping dictionaries by key
  // ---------------------------------------------------------------------

  /** The keys present among the dictionaries. */
  function KeysOf<D>(ds: seq<D>, keyOf: D -> string): set<string> {
    set i | 0 <= i < |ds| :: keyOf(ds[i])
  }

  /** "The dictionary has key `k`", as a filter. */
  function WithKey<D>(keyOf: D -> string, k: string): D -> bool {
    d => keyOf(d) == k
  }

  /** The grouping the reduce builds: each dictionary is pushed, in input
      order, onto the group of its key, which is created empty the first
      time the key is met. */
  function Group<D>(ds: seq<D>, keyOf: D -> string): (r: map<string, seq<D>>)
    ensures r.Keys == KeysOf(ds, keyOf)
    ensures forall k :: k in r ==> r[k] != []
  {
    if ds == [] then map[]
    else
      var init := ds[..|ds| - 1];
      var d := ds[|ds| - 1];
      var g := Group(init, keyOf);
      assert KeysOf(ds, keyOf) == KeysOf(init, keyOf) + {keyOf(d)} by {
        assert forall i :: 0 <= i < |init| ==> init[i] == ds[i];
      }
      g[keyOf(d) := (if keyOf(d) in g then g[keyOf(d)] else []) + [d]]
  }

  /** Each group holds exactly the dictionaries with its key, in input
      order, and as many times as the input holds them. */
  lemma {:induction false} GroupIsFilter<D>(ds: seq<D>, keyOf: D -> string, k: string)
    requires k in Group(ds, keyOf)
    ensures Group(ds, keyOf)[k] == Filter(ds, WithKey(keyOf, k))
  {
    var init := ds[..|ds| - 1];
    var d := ds[|ds| - 1];
    var g := Group(init, keyOf);
    assert ds == init + [d];
    FilterAppend(init, [d], WithKey(keyOf, k));
    assert Filter([d], WithKey(keyOf, k)) == if keyOf(d) == k then [d] else [] by {
      assert [d][1..] == [];
    }
    if k in g {
      GroupIsFilter(init, keyOf, k);
    } else {
      FilterOtherKeys(init, keyOf, k);
    }
  }

  /** No dictionary has a key absent from the input's keys. */
  lemma {:induction false} FilterOtherKeys<D>(ds: seq<D>, keyOf: D -> string, k: string)
    requires k !in KeysOf(ds, keyOf)
    ensures Filter(ds, WithKey(keyOf, k)) == []
  {
    if ds != [] {
      assert keyOf(ds[0]) in KeysOf(ds, keyOf);
      assert KeysOf(ds[1..], keyOf) <= KeysOf(ds, keyOf) by {
        assert forall i :: 0 <= i < |ds| - 1 ==> ds[1..][i] == ds[i + 1];
      }
      FilterOtherKeys(ds[1..], keyOf, k);
    }
  }

  /** A filter keeps every copy of an element it accepts. */
  lemma {:induction false} FilterKeepsCopies<T>(xs: seq<T>, p: T -> bool, x: T)
    requires p(x)
    ensures multiset(Filter(xs, p))[x] == multiset(xs)[x]
  {
    if |xs| > 0 {
      FilterKeepsCopies(xs[1..], p, x);
      assert xs == [xs[0]] + xs[1..];
    }
  }

  /** Nothing is lost or duplicated: every dictionary sits in the group of
      its own key as many times as in the input, and in no other group. */
  lemma GroupKeepsEveryDictionary<D>(ds: seq<D>, keyOf: D -> string, d: D)
    requires d in ds
    ensures keyOf(d) in Group(ds, keyOf)
    ensures multiset(Group(ds, keyOf)[keyOf(d)])[d] == multiset(ds)[d]
    ensures forall k :: k in Group(ds, keyOf) && k != keyOf(d) ==> d !in Group(ds, keyOf)[k]
  {
    var i :| 0 <= i < |ds| && ds[i] == d;
    assert keyOf(ds[i]) in KeysOf(ds, keyOf);
    GroupIsFilter(ds, keyOf, keyOf(d));
    FilterKeepsCopies(ds, WithKey(keyOf, keyOf(d)), d);
    forall k | k in Group(ds, keyOf) && k != keyOf(d)
      ensures d !in Group(ds, keyOf)[k]
    {
      GroupIsFilter(ds, keyOf, k);
    }
  }

  /** The names every plain object inherits from `Object.prototype`: for
      these `acc[key]` is already truthy on the empty accumulator. */
  const InheritedNames: set<string> :=
    {"constructor", "__proto__", "hasOwnProperty", "isPrototypeOf", "propertyIsEnumerable", "toLocaleString",
     "toString", "valueOf", "__defineGetter__", "__defineSetter__", "__lookupGetter__", "__lookupSetter__"}

  /** The reduce as written, on an accumulator that is a plain `{}`: a key
      the accumulator does not own but inherits skips the creation of the
      group, and the `push` on the inherited member throws. */
  function GroupAsWritten<D>(ds: seq<D>, keyOf: D -> string): (r: Result<map<string, seq<D>>>)
    ensures r.Success? ==> r.value.Keys == KeysOf(ds, keyOf)
  {
    if ds == [] then Success(map[])
    else
      var init := ds[..|ds| - 1];
      var d := ds[|ds| - 1];
      assert KeysOf(ds, keyOf) == KeysOf(init, keyOf) + {keyOf(d)} by {
        assert forall i :: 0 <= i < |init| ==> init[i] == ds[i];
      }
      match GroupAsWritten(init, keyOf)
      case Failure(e) => Failure(e)
      case Success(acc) =>
        if keyOf(d) in acc then Success(acc[keyOf(d) := acc[keyOf(d)] + [d]])
        else if keyOf(d) in InheritedNames then Failure("acc[key].push is not a function")
        else Success(acc[keyOf(d) := [d]])
  }

  /** The reduce as written throws exactly when some dictionary's key is an
      inherited name, and otherwise builds the intended grouping. */
  lemma {:induction false} GroupAsWrittenFailsOnInheritedKeys<D>(ds: seq<D>, keyOf: D -> string)
    ensures GroupAsWritten(ds, keyOf).Failure? <==> exists i :: 0 <= i < |ds| && keyOf(ds[i]) in InheritedNames
    ensures GroupAsWritten(ds, keyOf).Success? ==> GroupAsWritten(ds, keyOf).value == Group(ds, keyOf)
  {
    if ds != [] {
      var init := ds[..|ds| - 1];
      var d := ds[|ds| - 1];
      GroupAsWrittenFailsOnInheritedKeys(init, keyOf);
      assert forall i :: 0 <= i < |init| ==> init[i] == ds[i];
      if GroupAsWritten(init, keyOf).Success? && keyOf(d) !in GroupAsWritten(init, keyOf).value {
        assert [] + [d] == [d];
      }
    }
  }

  /** A single dictionary keyed "constructor" makes the command fail. */
  lemma ConstructorKeyThrows<D>(d: D, keyOf: D -> string)
    requires keyOf(d) == "constructor"
    ensures GroupAsWritten([d], keyOf).Failure?
  {
    assert [d][..0] == [];
  }

  // ---------------------------------------------------------------------
  // The report
  // ---------------------------------------------------------------------

  /** One missing translation: the dictionary key, its file when known, and
      the locales it lacks. */
  datatype Item = Item(key: string, filePath: Option<string>, locales: seq<string>)

  /** What the CLI reports. */
  datatype Missing = Missing(missingLocales: seq<string>, missingRequiredLocales: seq<string>, missingTranslations: seq<Item>)

  /** The output channel of the older command, or the markdown document of
      the current one. */
  datatype Style = Channel | Markdown

  const EmDash: string := "—"
  const NoneMissingLine: string := "✔ No missing translation keys found."
  const UnknownFile: string := "(unknown file)"
  const ListSeparator: string := ", "

  /** A locale list of the summary: `", "`-joined, or an em dash when empty. */
  function LocaleList(locales: seq<string>): (r: string)
    ensures locales == [] ==> r == EmDash
  {
    if locales == [] then EmDash else Join(locales, ListSeparator)
  }

  /** `filePath ?? "(unknown file)"`. */
  function FileLabel(filePath: Option<string>): (r: string)
    ensures filePath.Some? ==> r == filePath.value
    ensures filePath.None? ==> r == UnknownFile
  {
    filePath.GetOr(UnknownFile)
  }

  /** The four lines of one missing translation. */
  function ItemLines(it: Item, style: Style): (r: seq<string>)
    ensures |r| == 4 && r[3] == ""
    ensures forall i :: 0 <= i < 4 ==> r[i] == "" || r[i][0] != NoneMissingLine[0]
  {
    match style
    case Channel =>
      ["• Key: " + it.key, "  File: " + FileLabel(it.filePath), "  Missing locales: " + Join(it.locales, ListSeparator), ""]
    case Markdown =>
      ["### Key: " + it.key, "- File: " + FileLabel(it.filePath), "- Missing locales: " + Join(it.locales, ListSeparator), ""]
  }

  /** The loop over the missing translations. */
  function ItemBlocks(items: seq<Item>, style: Style): (r: seq<string>)
    ensures |r| == 4 * |items|
    ensures forall i :: 0 <= i < |r| ==> r[i] == "" || r[i][0] != NoneMissingLine[0]
  {
    if items == [] then [] else ItemLines(items[0], style) + ItemBlocks(items[1..], style)
  }

  /** The block of the `i`-th missing translation. */
  lemma {:induction false} ItemBlockAt(items: seq<Item>, style: Style, i: nat)
    requires i < |items|
    ensures ItemBlocks(items, style)[4 * i..4 * i + 4] == ItemLines(items[i], style)
  {
    if i > 0 {
      ItemBlockAt(items[1..], style, i - 1);
      assert ItemBlocks(items, style) == ItemLines(items[0], style) + ItemBlocks(items[1..], style);
    }
  }

  /** The lines before the summary of missing translations. */
  function Header(m: Missing, style: Style): (r: seq<string>)
    ensures forall i :: 0 <= i < |r| ==> r[i] == "" || r[i][0] != NoneMissingLine[0]
  {
    match style
    case Channel =>
      ["=====================================", "Intlayer — Missing Translations Report", "=====================================", "",
       "Missing locales (any): " + LocaleList(m.missingLocales),
       "Missing required locales: " + LocaleList(m.missingRequiredLocales), ""]
    case Markdown =>
      ["## Intlayer — Missing Translations Report", "",
       "- Missing locales (any): " + LocaleList(m.missingLocales),
       "- Missing required locales: " + LocaleList(m.missingRequiredLocales), ""]
  }

  /** The count line: the channel form embeds a line break where the
      markdown form pushes an empty line. */
  function CountLines(n: nat, style: Style): (r: seq<string>)
    ensures forall i :: 0 <= i < |r| ==> r[i] == "" || r[i][0] != NoneMissingLine[0]
  {
    match style
    case Channel => ["⚠ " + NatToString(n) + " missing translation key(s):\n"]
    case Markdown => ["⚠ " + NatToString(n) + " missing translation key(s):", ""]
  }

  /** Where the first missing translation's block starts. */
  function BlocksStart(style: Style): nat {
    match style
    case Channel => 8
    case Markdown => 7
  }

  /** The report's lines, in order. */
  function Report(m: Missing, style: Style): (r: seq<string>)
    ensures NoneMissingLine in r <==> m.missingTranslations == []
    ensures m.missingTranslations != [] ==> |r| == BlocksStart(style) + 4 * |m.missingTranslations|
  {
    var head := Header(m, style);
    var items := m.missingTranslations;
    if items == [] then head + [NoneMissingLine]
    else
      var r := head + CountLines(|items|, style) + ItemBlocks(items, style);
      assert forall i :: 0 <= i < |r| ==> r[i] == "" || r[i][0] != NoneMissingLine[0];
      r
  }

  /** Every missing translation gets its own block of key, file and
      locales, in the order the CLI lists them. */
  lemma ReportListsEveryItem(m: Missing, style: Style, i: nat)
    requires i < |m.missingTranslations|
    ensures var r := Report(m, style);
            var at := BlocksStart(style) + 4 * i;
            at + 4 <= |r| && r[at..at + 4] == ItemLines(m.missingTranslations[i], style)
  {
    var items := m.missingTranslations;
    var head := Header(m, style) + CountLines(|items|, style);
    var body := ItemBlocks(items, style);
    assert |head| == BlocksStart(style);
    assert Report(m, style) == head + body;
    assert body[4 * i..4 * i + 4] == ItemLines(items[i], style) by {
      ItemBlockAt(items, style, i);
    }
    SliceAfter(head, body, 4 * i, 4);
  }

  /** A window of the second part of a concatenation. */
  lemma SliceAfter<T>(head: seq<T>, body: seq<T>, i: nat, n: nat)
    requires i + n <= |body|
    ensures (head + body)[|head| + i..|head| + i + n] == body[i..i + n]
  {
  }

  // ---------------------------------------------------------------------
  // Reading a locale list back
  // ---------------------------------------------------------------------

  /** A locale code as Intlayer writes them (`en`, `fr-CA`, `zh_Hant`). */
  predicate LocaleCode(l: string) {
    |l| > 0 && forall i :: 0 <= i < |l| ==> IsAsciiLetter(l[i]) || IsDigit(l[i]) || l[i] == '-' || l[i] == '_'
  }

  function DropSpace(p: string): string {
    if |p| > 0 && p[0] == ' ' then p[1..] else p
  }

  /** The pieces of a `", "`-joined list. */
  function ReadList(s: string): (r: seq<string>)
    ensures |r| == |Split(s, ',')|
  {
    var parts := Split(s, ',');
    seq(|parts|, i requires 0 <= i < |parts| => DropSpace(parts[i]))
  }

  /** A summary's locale list read back. */
  function ParseLocaleList(s: string): seq<string> {
    if s == EmDash then [] else ReadList(s)
  }

  /** The pieces of a `", "`-joined list, before their spaces are dropped. */
  lemma {:induction false} SplitLocaleJoin(ls: seq<string>)
    requires |ls| >= 1
    requires forall i :: 0 <= i < |ls| ==> ',' !in ls[i]
    ensures var parts := Split(Join(ls, ListSeparator), ',');
            |parts| == |ls| && parts[0] == ls[0] && forall i :: 1 <= i < |ls| ==> parts[i] == " " + ls[i]
  {
    if |ls| > 1 {
      var tail := Join(ls[1..], ListSeparator);
      SplitLocaleJoin(ls[1..]);
      assert Join(ls, ListSeparator) == ls[0] + [','] + (" " + tail);
      SplitAfter(ls[0], ',', " " + tail);
      var tp := Split(tail, ',');
      assert Split(" " + tail, ',') == [" " + tp[0]] + tp[1..] by {
        assert (" " + tail)[1..] == tail;
      }
      assert forall i :: 1 <= i < |ls| - 1 ==> ls[1..][i] == ls[i + 1];
    } else {
      SplitNoSep(ls[0], ',');
    }
  }

  /** Printed and read back, a list of locale codes is unchanged. */
  lemma ReadListJoin(ls: seq<string>)
    requires |ls| >= 1
    requires forall i :: 0 <= i < |ls| ==> ',' !in ls[i] && (|ls[i]| == 0 || ls[i][0] != ' ')
    ensures ReadList(Join(ls, ListSeparator)) == ls
  {
    SplitLocaleJoin(ls);
    var parts := Split(Join(ls, ListSeparator), ',');
    var r := ReadList(Join(ls, ListSeparator));
    assert r[0] == ls[0];
    forall i | 1 <= i < |ls|
      ensures r[i] == ls[i]
    {
      assert parts[i] == " " + ls[i];
      assert DropSpace(parts[i]) == ls[i];
    }
  }

  /** A locale code holds no comma and does not start with a space. */
  lemma LocaleCodePlain(l: string)
    requires LocaleCode(l)
    ensures ',' !in l && l[0] != ' '
  {
  }

  /** A summary line's locale list reads back as the locales it lists, the
      em dash standing for none. */
  lemma LocaleListRoundTrip(ls: seq<string>)
    requires forall i :: 0 <= i < |ls| ==> LocaleCode(ls[i])
    ensures ParseLocaleList(LocaleList(ls)) == ls
  {
    if ls != [] {
      var s := Join(ls, ListSeparator);
      assert s[0] == ls[0][0] by {
        if |ls| > 1 {
          assert s == ls[0] + ListSeparator + Join(ls[1..], ListSeparator);
        }
      }
      assert s != EmDash;
      forall i | 0 <= i < |ls|
        ensures ',' !in ls[i] && ls[i][0] != ' '
      {
        LocaleCodePlain(ls[i]);
      }
      ReadListJoin(ls);
    }
  }

  // ---------------------------------------------------------------------
  // The markdown document
  // ---------------------------------------------------------------------

  /** `lines.join("\n")`: the content of the document that is opened. */
  function Document(m: Missing): string {
    Join(Report(m, Markdown), "\n")
  }

  predicate OneLine(s: string) { '\n' !in s }

  /** No key, file or locale the CLI reports spans several lines. */
  predicate SingleLineItems(m: Missing) {
    && (forall i :: 0 <= i < |m.missingLocales| ==> OneLine(m.missingLocales[i]))
    && (forall i :: 0 <= i < |m.missingRequiredLocales| ==> OneLine(m.missingRequiredLocales[i]))
    && forall i :: 0 <= i < |m.missingTranslations| ==> ItemOnOneLine(m.missingTranslations[i])
  }

  predicate ItemOnOneLine(it: Item) {
    OneLine(it.key) && (it.filePath.Some? ==> OneLine(it.filePath.value))
    && forall k :: 0 <= k < |it.locales| ==> OneLine(it.locales[k])
  }

  lemma LocaleListOneLine(ls: seq<string>)
    requires forall i :: 0 <= i < |ls| ==> OneLine(ls[i])
    ensures OneLine(LocaleList(ls))
  {
    if ls != [] {
      JoinAvoids(ls, ListSeparator, '\n');
    }
  }

  lemma {:induction false} ItemBlocksOneLine(items: seq<Item>)
    requires forall i :: 0 <= i < |items| ==> ItemOnOneLine(items[i])
    ensures forall i :: 0 <= i < |ItemBlocks(items, Markdown)| ==> OneLine(ItemBlocks(items, Markdown)[i])
  {
    if items != [] {
      var it := items[0];
      JoinAvoids(it.locales, ListSeparator, '\n');
      assert OneLine(FileLabel(it.filePath));
      ItemBlocksOneLine(items[1..]);
    }
  }

  /** Reading the document line by line gives the report's lines back. */
  lemma DocumentLines(m: Missing)
    requires SingleLineItems(m)
    ensures Split(Document(m), '\n') == Report(m, Markdown)
  {
    ReportOneLine(m);
    SplitJoin(Report(m, Markdown), '\n');
  }

  /** No line of the markdown report holds a line break. */
  lemma ReportOneLine(m: Missing)
    requires SingleLineItems(m)
    ensures forall i :: 0 <= i < |Report(m, Markdown)| ==> OneLine(Report(m, Markdown)[i])
  {
    var items := m.missingTranslations;
    HeaderOneLine(m);
    if items != [] {
      CountOneLine(|items|);
      ItemBlocksOneLine(items);
      AllOneLine3(Header(m, Markdown), CountLines(|items|, Markdown), ItemBlocks(items, Markdown));
    } else {
      AllOneLine3(Header(m, Markdown), [NoneMissingLine], []);
      assert Header(m, Markdown) + [NoneMissingLine] + [] == Report(m, Markdown);
    }
  }

  lemma AllOneLine3(a: seq<string>, b: seq<string>, c: seq<string>)
    requires forall i :: 0 <= i < |a| ==> OneLine(a[i])
    requires forall i :: 0 <= i < |b| ==> OneLine(b[i])
    requires forall i :: 0 <= i < |c| ==> OneLine(c[i])
    ensures forall i :: 0 <= i < |a + b + c| ==> OneLine((a + b + c)[i])
  {
  }

  lemma HeaderOneLine(m: Missing)
    requires SingleLineItems(m)
    ensures forall i :: 0 <= i < |Header(m, Markdown)| ==> OneLine(Header(m, Markdown)[i])
  {
    LocaleListOneLine(m.missingLocales);
    LocaleListOneLine(m.missingRequiredLocales);
  }

  lemma CountOneLine(n: nat)
    ensures forall i :: 0 <= i < |CountLines(n, Markdown)| ==> OneLine(CountLines(n, Markdown)[i])
  {
    var digits := NatToString(n);
    assert forall i :: 0 <= i < |digits| ==> digits[i] != '\n';
  }

  // ---------------------------------------------------------------------
  // The command
  // ---------------------------------------------------------------------

  /** What the current "test" command shows. */
  datatype Outcome =
    | NoProjectRoot(message: string)
    | ReportOpened(content: string)
    | NothingMissing(message: string)
    | TestFailed(message: string)

  /** `hasIssues`: some translation or some locale is missing. */
  predicate HasIssues(m: Missing) {
    |m.missingTranslations| > 0 || |m.missingLocales| > 0
  }

  /** `testCommand`: `projectDir` is the project root found, `listed` what
      the CLI returns or the message of the error it throws. */
  function TestCommand(projectDir: Option<string>, listed: Result<Missing>): (r: Outcome)
    ensures projectDir.None? || projectDir.value == "" <==> r.NoProjectRoot?
    ensures r.ReportOpened? <==> projectDir.Some? && projectDir.value != "" && listed.Success? && HasIssues(listed.value)
    ensures r.ReportOpened? ==> r.content == Document(listed.value)
    ensures r.TestFailed? ==> listed.Failure? && r.message == Prefix + " test failed: " + listed.error
  {
    if projectDir.None? || projectDir.value == "" then NoProjectRoot(Prefix + "Could not find intlayer project root.")
    else
      match listed
      case Failure(e) => TestFailed(Prefix + " test failed: " + e)
      case Success(m) =>
        if HasIssues(m) then ReportOpened(Document(m))
        else NothingMissing(Prefix + "No missing translations found.")
  }

  /** A report opened because locales are missing, though no key is,
      carries the "nothing missing" line for keys. */
  lemma OnlyLocalesMissing(projectDir: string, m: Missing)
    requires projectDir != "" && m.missingTranslations == [] && m.missingLocales != []
    ensures TestCommand(Some(projectDir), Success(m)).ReportOpened?
    ensures NoneMissingLine in Report(m, Markdown)
  {
  }
}
