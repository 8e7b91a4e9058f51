/** Creating a content declaration next to the active file
    (src/createDictionaryContent.ts): the name of the exported component or
    of the file gives the target file name, the variable name and the
    dictionary key, and a template per format gives the file's text. The
    editor, the overwrite prompt and the file writes are not modelled. */
module DictionaryContent {
  import opened Wrappers
  import opened Text
  import Paths

  // ---- detectExportedComponentName ----

  /** `export\s+const\s+(\w+)`, `export\s+function\s+(\w+)` and
      `export\s+default\s+function\s+(\w+)`: keywords, each followed by
      white space, then the captured name. */
  const ExportConst: seq<string> := ["export", "const"]
  const ExportFunction: seq<string> := ["export", "function"]
  const ExportDefaultFunction: seq<string> := ["export", "default", "function"]

  /** Where the keywords matched from `i`, each followed by at least one
      white-space character, end. */
  function KeywordsEnd(s: string, i: nat, words: seq<string>): (r: Option<nat>)
    decreases |words|
    ensures r.Some? ==> i <= r.value <= |s|
    ensures r.Some? && words != [] ==> At(s, i, words[0]) && i + |words[0]| < r.value
  {
    if words == [] then (if i <= |s| then Some(i) else None)
    else if At(s, i, words[0]) then
      var e := RunEnd(s, i + |words[0]|, IsSpace);
      if e > i + |words[0]| then KeywordsEnd(s, e, words[1..]) else None
    else None
  }

  /** The name captured by the pattern when it matches at `i`: the longest
      run of word characters after the keywords. */
  function CaptureAt(s: string, i: nat, words: seq<string>): (r: Option<string>)
    ensures r.Some? ==> r.value != [] && forall k :: 0 <= k < |r.value| ==> IsWordChar(r.value[k])
    ensures r.Some? ==> KeywordsEnd(s, i, words).Some? &&
                        var j := KeywordsEnd(s, i, words).value;
                        At(s, j, r.value) && (j + |r.value| == |s| || !IsWordChar(s[j + |r.value|]))
  {
    match KeywordsEnd(s, i, words)
    case None => None
    case Some(j) =>
      if j < |s| && IsWordChar(s[j]) then Some(s[j..RunEnd(s, j, IsWordChar)]) else None
  }

  /** `s.match(pattern)`: the leftmost match at or after `from`, by its start. */
  function FirstMatch(s: string, words: seq<string>, from: nat): (r: Option<nat>)
    decreases |s| + 1 - from
    ensures r.Some? ==> from <= r.value && CaptureAt(s, r.value, words).Some?
    ensures r.Some? ==> forall j :: from <= j < r.value ==> CaptureAt(s, j, words).None?
    ensures r.None? ==> forall j :: from <= j <= |s| ==> CaptureAt(s, j, words).None?
  {
    if from > |s| then None
    else if CaptureAt(s, from, words).Some? then Some(from)
    else FirstMatch(s, words, from + 1)
  }

  /** The name the leftmost match of a pattern captures. */
  function Captured(s: string, words: seq<string>): Option<string> {
    match FirstMatch(s, words, 0)
    case Some(i) => CaptureAt(s, i, words)
    case None => None
  }

  /** `detectExportedComponentName`: `export const` first, then `export
      function`, then `export default function`, each at its leftmost match. */
  function DetectExportedName(s: string): (r: Option<string>)
    ensures Captured(s, ExportConst).Some? ==> r == Captured(s, ExportConst)
    ensures Captured(s, ExportConst).None? && Captured(s, ExportFunction).Some? ==> r == Captured(s, ExportFunction)
    ensures Captured(s, ExportConst).None? && Captured(s, ExportFunction).None? ==> r == Captured(s, ExportDefaultFunction)
    ensures r.Some? ==> r.value != [] && forall k :: 0 <= k < |r.value| ==> IsWordChar(r.value[k])
  {
    if Captured(s, ExportConst).Some? then Captured(s, ExportConst)
    else if Captured(s, ExportFunction).Some? then Captured(s, ExportFunction)
    else Captured(s, ExportDefaultFunction)
  }

  /** Wherever a pattern matches, the detected name is found by it or by a
      pattern tried earlier: a match is never missed. */
  lemma MatchIsNotMissed(s: string, words: seq<string>, i: nat)
    requires CaptureAt(s, i, words).Some?
    ensures Captured(s, words).Some?
    ensures FirstMatch(s, words, 0).value <= i
  {
  }

  // ---- Names ----

  /** `toLowerCamelCase`: the first character lowered. */
  function LowerCamel(s: string): (r: string)
    ensures |r| == |s|
    ensures |s| > 0 ==> r[0] == LowerChar(s[0]) && r[1..] == s[1..]
  {
    if s == "" then "" else [LowerChar(s[0])] + s[1..]
  }

  lemma LowerCamelIdempotent(s: string)
    ensures LowerCamel(LowerCamel(s)) == LowerCamel(s)
  {
    if s != "" {
      assert LowerChar(LowerChar(s[0])) == LowerChar(s[0]);
    }
  }

  /** `replace(/([a-z])([A-Z])/g, "$1-$2")`. */
  function DashLowerUpper(s: string): (r: string)
    decreases |s|
  {
    if |s| < 2 then s
    else if IsAsciiLower(s[0]) && IsAsciiUpper(s[1]) then [s[0], '-', s[1]] + DashLowerUpper(s[2..])
    else [s[0]] + DashLowerUpper(s[1..])
  }

  /** `replace(/([A-Z])([A-Z][a-z])/g, "$1-$2")`. */
  function DashUpperRun(s: string): (r: string)
    decreases |s|
  {
    if |s| < 3 then s
    else if IsAsciiUpper(s[0]) && IsAsciiUpper(s[1]) && IsAsciiLower(s[2]) then [s[0], '-', s[1], s[2]] + DashUpperRun(s[3..])
    else [s[0]] + DashUpperRun(s[1..])
  }

  /** `toKebabCase`. */
  function Kebab(s: string): string {
    Lower(DashUpperRun(DashLowerUpper(s)))
  }

  /** The text with its dashes taken out. */
  function Undashed(s: string): (r: string)
    ensures |r| <= |s|
  {
    if s == [] then [] else (if s[0] == '-' then [] else [s[0]]) + Undashed(s[1..])
  }

  lemma {:induction false} UndashedAppend(a: string, b: string)
    ensures Undashed(a + b) == Undashed(a) + Undashed(b)
    decreases |a|
  {
    if a == [] {
      assert a + b == b;
    } else {
      assert (a + b)[0] == a[0] && (a + b)[1..] == a[1..] + b;
      UndashedAppend(a[1..], b);
    }
  }

  /** The first pass only inserts dashes, and leaves no lower-case letter
      directly before an upper-case one. */
  lemma DashLowerUpperInserts(s: string)
    ensures Undashed(DashLowerUpper(s)) == Undashed(s)
    ensures |s| > 0 ==> |DashLowerUpper(s)| > 0 && DashLowerUpper(s)[0] == s[0]
    ensures forall i :: 0 <= i < |DashLowerUpper(s)| - 1 ==>
              !(IsAsciiLower(DashLowerUpper(s)[i]) && IsAsciiUpper(DashLowerUpper(s)[i + 1]))
  {
    DashLowerUpperUndashed(s);
    DashLowerUpperShape(s);
  }

  /** A dash between two letters goes away with the dashes. */
  lemma UndashedTriple(x: char, y: char)
    requires x != '-' && y != '-'
    ensures Undashed([x, '-', y]) == [x, y]
  {
    assert Undashed([y]) == [y] by { assert [y][1..] == []; }
    assert Undashed(['-', y]) == [y] by { assert ['-', y][1..] == [y]; }
    assert Undashed([x, '-', y]) == [x] + [y] by { assert [x, '-', y][1..] == ['-', y]; }
  }

  lemma UndashedQuad(x: char, y: char, z: char)
    requires x != '-' && y != '-' && z != '-'
    ensures Undashed([x, '-', y, z]) == [x, y, z]
  {
    assert Undashed([z]) == [z] by { assert [z][1..] == []; }
    assert Undashed([y, z]) == [y, z] by { assert [y, z][1..] == [z]; }
    assert Undashed(['-', y, z]) == [y, z] by { assert ['-', y, z][1..] == [y, z]; }
    assert Undashed([x, '-', y, z]) == [x] + [y, z] by { assert [x, '-', y, z][1..] == ['-', y, z]; }
  }

  lemma {:induction false} DashLowerUpperUndashed(s: string)
    ensures Undashed(DashLowerUpper(s)) == Undashed(s)
    decreases |s|
  {
    if |s| >= 2 {
      if IsAsciiLower(s[0]) && IsAsciiUpper(s[1]) {
        var rest := DashLowerUpper(s[2..]);
        DashLowerUpperUndashed(s[2..]);
        assert Undashed(DashLowerUpper(s)) == [s[0], s[1]] + Undashed(rest) by {
          assert DashLowerUpper(s) == [s[0], '-', s[1]] + rest;
          UndashedAppend([s[0], '-', s[1]], rest);
          UndashedTriple(s[0], s[1]);
        }
        assert Undashed(s) == [s[0], s[1]] + Undashed(s[2..]) by {
          assert s == [s[0], s[1]] + s[2..];
          UndashedAppend([s[0], s[1]], s[2..]);
          UndashedPlain([s[0], s[1]]);
        }
      } else {
        var rest := DashLowerUpper(s[1..]);
        DashLowerUpperUndashed(s[1..]);
        assert Undashed(DashLowerUpper(s)) == Undashed([s[0]]) + Undashed(rest) by {
          assert DashLowerUpper(s) == [s[0]] + rest;
          UndashedAppend([s[0]], rest);
        }
        assert Undashed(s) == Undashed([s[0]]) + Undashed(s[1..]) by {
          assert s == [s[0]] + s[1..];
          UndashedAppend([s[0]], s[1..]);
        }
      }
    }
  }

  lemma {:induction false} DashLowerUpperShape(s: string)
    ensures |s| > 0 ==> |DashLowerUpper(s)| > 0 && DashLowerUpper(s)[0] == s[0]
    ensures forall i :: 0 <= i < |DashLowerUpper(s)| - 1 ==>
              !(IsAsciiLower(DashLowerUpper(s)[i]) && IsAsciiUpper(DashLowerUpper(s)[i + 1]))
    decreases |s|
  {
    var r := DashLowerUpper(s);
    if |s| >= 2 {
      if IsAsciiLower(s[0]) && IsAsciiUpper(s[1]) {
        var rest := DashLowerUpper(s[2..]);
        DashLowerUpperShape(s[2..]);
        assert r == [s[0], '-', s[1]] + rest;
        forall i | 0 <= i < |r| - 1 ensures !(IsAsciiLower(r[i]) && IsAsciiUpper(r[i + 1])) {
          if i >= 3 {
            assert r[i] == rest[i - 3] && r[i + 1] == rest[i - 2];
          } else if i == 2 {
            assert r[i] == s[1];
          } else {
            assert r[1] == '-';
          }
        }
      } else {
        var rest := DashLowerUpper(s[1..]);
        DashLowerUpperShape(s[1..]);
        assert r == [s[0]] + rest;
        forall i | 0 <= i < |r| - 1 ensures !(IsAsciiLower(r[i]) && IsAsciiUpper(r[i + 1])) {
          if i >= 1 {
            assert r[i] == rest[i - 1] && r[i + 1] == rest[i];
          } else {
            assert r[0] == s[0] && r[1] == s[1];
          }
        }
      }
    }
  }

  lemma {:induction false} UndashedPlain(x: string)
    requires forall k :: 0 <= k < |x| ==> x[k] != '-'
    ensures Undashed(x) == x
  {
    if x != [] {
      UndashedPlain(x[1..]);
      assert x == [x[0]] + x[1..];
    }
  }

  /** The second pass only inserts dashes too. */
  lemma {:induction false} DashUpperRunInserts(s: string)
    ensures Undashed(DashUpperRun(s)) == Undashed(s)
    decreases |s|
  {
    if |s| >= 3 {
      if IsAsciiUpper(s[0]) && IsAsciiUpper(s[1]) && IsAsciiLower(s[2]) {
        DashUpperRunInserts(s[3..]);
        var head := [s[0], '-', s[1], s[2]];
        assert DashUpperRun(s) == head + DashUpperRun(s[3..]);
        UndashedAppend(head, DashUpperRun(s[3..]));
        assert s == [s[0], s[1], s[2]] + s[3..];
        UndashedAppend([s[0], s[1], s[2]], s[3..]);
        UndashedQuad(s[0], s[1], s[2]);
        UndashedPlain([s[0], s[1], s[2]]);
      } else {
        DashUpperRunInserts(s[1..]);
        assert DashUpperRun(s) == [s[0]] + DashUpperRun(s[1..]);
        assert s == [s[0]] + s[1..];
        UndashedAppend([s[0]], DashUpperRun(s[1..]));
        UndashedAppend([s[0]], s[1..]);
      }
    }
  }

  lemma {:induction false} UndashedLower(s: string)
    ensures Undashed(Lower(s)) == Lower(Undashed(s))
    decreases |s|
  {
    if s != [] {
      UndashedLower(s[1..]);
      assert Lower(s)[1..] == Lower(s[1..]);
      LowerAppend(if s[0] == '-' then [] else [s[0]], Undashed(s[1..]));
    }
  }

  /** `toKebabCase` inserts dashes and lowers the letters, nothing else:
      without its dashes the result is the lowered input without its dashes,
      and no upper-case letter is left. */
  lemma KebabOnlyInsertsDashes(s: string)
    ensures Undashed(Kebab(s)) == Lower(Undashed(s))
    ensures forall i :: 0 <= i < |Kebab(s)| ==> !IsAsciiUpper(Kebab(s)[i])
  {
    DashLowerUpperInserts(s);
    DashUpperRunInserts(DashLowerUpper(s));
    UndashedLower(DashUpperRun(DashLowerUpper(s)));
  }

  /** The example of the source's comment; the three lemmas after it are
      its steps. */
  lemma KebabExample(s: string)
    requires s == "MyNew" + "Component"
    ensures Kebab(s) == "my-new-" + "component"
  {
    ExampleFirstPass(s);
    var p1 := "My-New-" + "Component";
    NoUpperRunUnchanged(p1);
    ExampleLowered(p1);
  }

  // Proof steps of KebabExample.

  /** The first replacement on the example's tail. */
  lemma ExampleTail(t: string)
    requires t == "wComponent"
    ensures DashLowerUpper(t) == "w-Component"
  {
    assert t[2..] == "omponent";
    NoLowerUpperUnchanged(t[2..]);
  }

  /** The first replacement on the whole example. */
  lemma ExampleFirstPass(s: string)
    requires s == "MyNew" + "Component"
    ensures DashLowerUpper(s) == "My-New-" + "Component"
  {
    assert s[4..] == "wComponent";
    ExampleTail(s[4..]);
    assert DashLowerUpper(s[3..]) == "ew-Component";
    assert DashLowerUpper(s[1..]) == "y-New-Component";
  }

  /** Lowering the split example. */
  lemma ExampleLowered(p: string)
    requires p == "My-New-" + "Component"
    ensures Lower(p) == "my-new-" + "component"
  {
    var q := Lower(p);
    var want := "my-new-" + "component";
    forall i | 0 <= i < |p| ensures q[i] == want[i] {
      assert q[i] == LowerChar(p[i]);
    }
  }

  /** Text without a lower-case letter before an upper-case one is left
      alone by the first pass. */
  lemma {:induction false} NoLowerUpperUnchanged(s: string)
    requires forall i :: 0 <= i < |s| - 1 ==> !(IsAsciiLower(s[i]) && IsAsciiUpper(s[i + 1]))
    ensures DashLowerUpper(s) == s
    decreases |s|
  {
    if |s| >= 2 {
      assert forall i :: 0 <= i < |s| - 2 ==> s[1..][i] == s[i + 1];
      NoLowerUpperUnchanged(s[1..]);
      assert s == [s[0]] + s[1..];
    }
  }

  /** Text without an upper-case pair before a lower-case letter is left
      alone by the second pass. */
  lemma {:induction false} NoUpperRunUnchanged(s: string)
    requires forall i :: 0 <= i < |s| - 2 ==> !(IsAsciiUpper(s[i]) && IsAsciiUpper(s[i + 1]) && IsAsciiLower(s[i + 2]))
    ensures DashUpperRun(s) == s
    decreases |s|
  {
    if |s| >= 3 {
      assert forall i :: 0 <= i < |s| - 3 ==> s[1..][i] == s[i + 1];
      NoUpperRunUnchanged(s[1..]);
      assert s == [s[0]] + s[1..];
    }
  }

  /** The extension of the new file: `.content.js` beside a `.jsx` file,
      `.content.ts` otherwise. */
  function ContentExtension(ext: string): (r: string)
    ensures r == ".content.js" <==> ext == ".jsx"
    ensures r != ".content.js" ==> r == ".content.ts"
  {
    if ext == ".tsx" then ".content.ts" else if ext == ".jsx" then ".content.js" else ".content.ts"
  }

  datatype Naming = Naming(variableName: string, dictionaryKey: string)

  /** The variable name and the dictionary key for a base name. */
  function NamingOf(base: string): (r: Naming)
    ensures base == "" ==> r == Naming("content", "")
    ensures base != "" && Lower(base) == "index" ==> r == Naming("indexContent", "index")
    ensures base != "" && Lower(base) != "index" ==> r == Naming(LowerCamel(base) + "Content", Kebab(base))
    ensures base != "" && Lower(base) != "index" ==> Undashed(r.dictionaryKey) == Lower(Undashed(base))
  {
    KebabOnlyInsertsDashes(base);
    if base == "" then Naming("content", "")
    else if Lower(base) == "index" then Naming("indexContent", "index")
    else Naming(LowerCamel(base) + "Content", Kebab(base))
  }

  // ---- Templates ----

  datatype Format = Ts | Esm | Cjs | JsonFormat | OtherFormat

  const TsHead: string := "import { type Dictionary } from 'intlayer';\n\n"
  const EsmHead: string := "import { } from 'intlayer';\n\n/** @type {import('intlayer').Dictionary} */\n"
  const CjsHead: string := "const { } = require('intlayer');\n\n/** @type {import('intlayer').Dictionary} */\n"
  const Body: string := "\n  content: {},\n}"
  const TsBetween: string := " satisfies Dictionary;\n\n"
  const JsBetween: string := ";\n\n"
  const JsonHead: string := "{\n  \"$schema\": \"https://intlayer.org/schema.json\",\n  "
  const JsonTail: string := "\n  \"content\": {}\n}\n"

  /** `const <v> = {` and the key line. */
  function DeclLine(v: string, k: string): string {
    "const " + v + " = {\n  key: '" + k + "',"
  }

  /** `export default <v>;`. */
  function ExportLine(v: string): string {
    "export default " + v + ";\n"
  }

  /** `"key": "<k>",`. */
  function JsonKeyLine(k: string): string {
    "\"key\": \"" + k + "\","
  }

  /** The code templates: a head, the declaration of the variable with the
      key, and its default export. */
  function CodeTemplate(head: string, between: string, v: string, k: string): string {
    head + DeclLine(v, k) + (Body + between + ExportLine(v))
  }

  /** `createDictionaryContent(format, variableName, dictionaryKey)`. */
  function Template(format: Format, v: string, k: string): (r: string)
    ensures format == OtherFormat <==> r == ""
  {
    match format
    case Ts => CodeTemplate(TsHead, TsBetween, v, k)
    case Esm => CodeTemplate(EsmHead, JsBetween, v, k)
    case Cjs => CodeTemplate(CjsHead, JsBetween, v, k)
    case JsonFormat => JsonHead + JsonKeyLine(k) + JsonTail
    case OtherFormat => ""
  }

  lemma AtMiddle(a: string, b: string, c: string)
    ensures At(a + b + c, |a|, b)
  {
    assert (a + b + c)[|a|..|a| + |b|] == b;
  }

  /** A code template holds the declaration and the default export. */
  lemma CodeTemplateEmbeds(head: string, between: string, v: string, k: string)
    ensures Contains(CodeTemplate(head, between, v, k), DeclLine(v, k))
    ensures Contains(CodeTemplate(head, between, v, k), ExportLine(v))
  {
    var d, e := DeclLine(v, k), ExportLine(v);
    var t := CodeTemplate(head, between, v, k);
    assert Contains(t, d) by {
      AtMiddle(head, d, Body + between + e);
      ContainsAt(t, d, |head|);
    }
    assert Contains(t, e) by {
      var pre := head + d + Body + between;
      assert t == pre + e + [];
      AtMiddle(pre, e, []);
      ContainsAt(t, e, |pre|);
    }
  }

  /** Every code template declares the variable, gives it `key: '<key>'`
      and exports it by default; the JSON template holds `"key": "<key>",`. */
  lemma TemplatesEmbedNames(format: Format, v: string, k: string)
    requires format != OtherFormat
    ensures format != JsonFormat ==> Contains(Template(format, v, k), DeclLine(v, k))
    ensures format != JsonFormat ==> Contains(Template(format, v, k), ExportLine(v))
    ensures format == JsonFormat ==> Contains(Template(format, v, k), JsonKeyLine(k))
  {
    match format
    case Ts => CodeTemplateEmbeds(TsHead, TsBetween, v, k);
    case Esm => CodeTemplateEmbeds(EsmHead, JsBetween, v, k);
    case Cjs => CodeTemplateEmbeds(CjsHead, JsBetween, v, k);
    case JsonFormat =>
      AtMiddle(JsonHead, JsonKeyLine(k), JsonTail);
      ContainsAt(JsonHead + JsonKeyLine(k) + JsonTail, JsonKeyLine(k), |JsonHead|);
  }

  // ---- generateDictionaryContent ----

  /** The file to create: where, and with what text. */
  datatype NewFile = NewFile(path: string, text: string, naming: Naming)

  /** The name the new file is derived from: the exported component's
      name, else the active file's name without its extension. */
  function GeneratedBase(filePath: string, fileText: string): (r: string)
    ensures DetectExportedName(fileText).Some? ==> r == DetectExportedName(fileText).value
    ensures DetectExportedName(fileText).None? ==>
              r == Paths.BasenameWithout(Paths.Basename(filePath), Paths.ExtName(Paths.Basename(filePath)))
  {
    var fileName := Paths.Basename(filePath);
    DetectExportedName(fileText).GetOr(Paths.BasenameWithout(fileName, Paths.ExtName(fileName)))
  }

  /** `path.join(dir, name)` starts with `dir` and ends with `name`. */
  lemma JoinKeepsEnds(dir: string, name: string)
    ensures StartsWith(Paths.Join(dir, name), dir) && EndsWith(Paths.Join(dir, name), name)
  {
    var j := Paths.Join(dir, name);
    if dir != "" && !EndsWith(dir, "/") {
      assert j == dir + ("/" + name);
    }
    assert j[..|dir|] == dir;
    assert j[|j| - |name|..] == name;
  }

  /** A suffix of a suffix is a suffix. */
  lemma EndsWithTail(s: string, a: string, b: string)
    requires EndsWith(s, a + b)
    ensures EndsWith(s, b)
  {
    assert s[|s| - |b|..] == (a + b)[|a|..];
  }

  /** Where the new file goes: the active file's directory, the lower-camel
      base name and the content extension. */
  function GeneratedPath(filePath: string, fileText: string): (r: string)
    ensures StartsWith(r, Paths.Dirname(filePath))
    ensures EndsWith(r, LowerCamel(GeneratedBase(filePath, fileText)) + ContentExtension(Paths.ExtName(Paths.Basename(filePath))))
    ensures EndsWith(r, ".content.js") <==> Paths.ExtName(Paths.Basename(filePath)) == ".jsx"
  {
    var ext := Paths.ExtName(Paths.Basename(filePath));
    var name := LowerCamel(GeneratedBase(filePath, fileText)) + ContentExtension(ext);
    JoinKeepsEnds(Paths.Dirname(filePath), name);
    EndsWithTail(Paths.Join(Paths.Dirname(filePath), name), LowerCamel(GeneratedBase(filePath, fileText)), ContentExtension(ext));
    Paths.Join(Paths.Dirname(filePath), name)
  }

  /** A template is empty exactly for an unknown format; a code template
      declares the variable with the key and exports it, and the JSON
      template holds the key. */
  lemma TemplateFacts(format: Format, v: string, k: string)
    ensures format == OtherFormat <==> Template(format, v, k) == ""
    ensures format != OtherFormat && format != JsonFormat ==>
              Contains(Template(format, v, k), DeclLine(v, k)) && Contains(Template(format, v, k), ExportLine(v))
    ensures format == JsonFormat ==> Contains(Template(format, v, k), JsonKeyLine(k))
  {
    if format != OtherFormat { TemplatesEmbedNames(format, v, k); }
  }

  /** `generateDictionaryContent(format)` for the active file at `filePath`
      holding `fileText`: the new file sits in the active file's directory
      under the lower-camel base name with a `.content.ts`/`.content.js`
      extension, and its template declares the variable with the key and
      exports it. */
  function Generate(format: Format, filePath: string, fileText: string): (r: NewFile)
    ensures StartsWith(r.path, Paths.Dirname(filePath))
    ensures EndsWith(r.path, LowerCamel(GeneratedBase(filePath, fileText)) + ContentExtension(Paths.ExtName(Paths.Basename(filePath))))
    ensures EndsWith(r.path, ".content.js") <==> Paths.ExtName(Paths.Basename(filePath)) == ".jsx"
    ensures r.naming == NamingOf(GeneratedBase(filePath, fileText))
    ensures format == OtherFormat <==> r.text == ""
    ensures format != OtherFormat && format != JsonFormat ==>
              Contains(r.text, DeclLine(r.naming.variableName, r.naming.dictionaryKey))
              && Contains(r.text, ExportLine(r.naming.variableName))
    ensures format == JsonFormat ==> Contains(r.text, JsonKeyLine(r.naming.dictionaryKey))
  {
    var naming := NamingOf(GeneratedBase(filePath, fileText));
    TemplateFacts(format, naming.variableName, naming.dictionaryKey);
    NewFile(GeneratedPath(filePath, fileText), Template(format, naming.variableName, naming.dictionaryKey), naming)
  }

  /** An exported component names the new file whatever the file is called. */
  lemma ExportedNameWins(format: Format, filePath: string, fileText: string, name: string)
    requires DetectExportedName(fileText) == Some(name)
    ensures Generate(format, filePath, fileText).naming == NamingOf(name)
  {
  }
}
