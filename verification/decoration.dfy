/** The inline translation preview (src/providers/intlayerDecoration.ts): for
    each reference to a variable bound by `useIntlayer('key')`, the
    default-locale text it shows, placed at the end of the reference's line,
    at most once per line. */
module Decoration {
  import opened Wrappers
  import opened Text
  import opened Content
  import opened Syntax
  import ValueResolver
  import Lists

  const TruncateLength: nat := 60

  // ---- Display text ----

  predicate NotSpace(c: char) { !IsSpace(c) }

  function DropSpaces(s: string): (r: string)
    ensures |r| <= |s| && r == s[|s| - |r|..]
    ensures |r| > 0 ==> !IsSpace(r[0])
    ensures forall i :: 0 <= i < |s| - |r| ==> IsSpace(s[i])
  {
    if |s| > 0 && IsSpace(s[0]) then DropSpaces(s[1..]) else s
  }

  /** No whitespace but single spaces. */
  predicate SingleSpaced(r: string) {
    (forall i :: 0 <= i < |r| && IsSpace(r[i]) ==> r[i] == ' ')
    && forall i :: 0 <= i < |r| - 1 ==> !(IsSpace(r[i]) && IsSpace(r[i + 1]))
  }

  /** `s.replace(/\s+/g, " ")`: every maximal whitespace run becomes one space. */
  function CollapseSpaces(s: string): (r: string)
    decreases |s|
    ensures |r| <= |s|
    ensures |r| > 0 ==> |s| > 0 && (IsSpace(r[0]) <==> IsSpace(s[0]))
    ensures |r| > 0 && IsSpace(r[0]) ==> r[0] == ' ' && (|r| > 1 ==> !IsSpace(r[1]))
  {
    if s == [] then []
    else if IsSpace(s[0]) then [' '] + CollapseSpaces(DropSpaces(s))
    else [s[0]] + CollapseSpaces(s[1..])
  }

  /** The collapsed text has no whitespace but single spaces. */
  lemma {:induction false} CollapseSingleSpaced(s: string)
    ensures SingleSpaced(CollapseSpaces(s))
    decreases |s|
  {
    if s != [] {
      var r := CollapseSpaces(s);
      if IsSpace(s[0]) {
        var tail := CollapseSpaces(DropSpaces(s));
        CollapseSingleSpaced(DropSpaces(s));
        assert r == [' '] + tail;
        assert forall i :: 1 <= i < |r| ==> r[i] == tail[i - 1];
      } else {
        var tail := CollapseSpaces(s[1..]);
        CollapseSingleSpaced(s[1..]);
        assert r == [s[0]] + tail;
        assert forall i :: 1 <= i < |r| ==> r[i] == tail[i - 1];
      }
    }
  }

  /** Collapsing keeps every non-whitespace character, in order. */
  lemma {:induction false} CollapseKeepsText(s: string)
    ensures Lists.Filter(CollapseSpaces(s), NotSpace) == Lists.Filter(s, NotSpace)
    decreases |s|
  {
    if s != [] {
      if IsSpace(s[0]) {
        var rest := DropSpaces(s);
        var tail := CollapseSpaces(rest);
        assert CollapseSpaces(s) == [' '] + tail;
        assert Lists.Filter([' '] + tail, NotSpace) == Lists.Filter(tail, NotSpace) by {
          Lists.FilterAppend([' '], tail, NotSpace);
        }
        assert Lists.Filter(tail, NotSpace) == Lists.Filter(rest, NotSpace) by {
          CollapseKeepsText(rest);
        }
        assert Lists.Filter(s, NotSpace) == Lists.Filter(rest, NotSpace) by {
          NonSpacesOfSpaces(s, |s| - |rest|);
        }
      } else {
        var tail := CollapseSpaces(s[1..]);
        assert CollapseSpaces(s) == [s[0]] + tail;
        assert Lists.Filter([s[0]] + tail, NotSpace) == Lists.Filter([s[0]], NotSpace) + Lists.Filter(tail, NotSpace) by {
          Lists.FilterAppend([s[0]], tail, NotSpace);
        }
        assert Lists.Filter(tail, NotSpace) == Lists.Filter(s[1..], NotSpace) by {
          CollapseKeepsText(s[1..]);
        }
        assert Lists.Filter(s, NotSpace) == Lists.Filter([s[0]], NotSpace) + Lists.Filter(s[1..], NotSpace) by {
          Lists.FilterAppend([s[0]], s[1..], NotSpace);
          assert s == [s[0]] + s[1..];
        }
      }
    }
  }

  // ---- Words: the reference for collapsing ----

  /** `w` holds no white space. */
  predicate NoSpace(w: string) {
    forall k :: 0 <= k < |w| ==> !IsSpace(w[k])
  }

  /** A word: a non-empty run of non-white-space characters. */
  predicate IsWord(w: string) {
    w != [] && NoSpace(w)
  }

  /** The run of non-white-space characters `d` starts with. */
  function LeadingWord(d: string): (w: string)
    ensures |w| <= |d| && w == d[..|w|]
    ensures NoSpace(w)
    ensures |w| < |d| ==> IsSpace(d[|w|])
    ensures d != [] && !IsSpace(d[0]) ==> w != []
    decreases |d|
  {
    if d == [] || IsSpace(d[0]) then [] else [d[0]] + LeadingWord(d[1..])
  }

  /** The words of a text: its maximal runs of non-white-space characters,
      in order. */
  function Words(s: string): (ws: seq<string>)
    ensures forall i :: 0 <= i < |ws| ==> IsWord(ws[i])
    decreases |s|
  {
    var d := DropSpaces(s);
    if d == [] then []
    else
      var w := LeadingWord(d);
      assert IsWord(w);
      assert |d[|w|..]| < |s|;
      var ws := Words(d[|w|..]);
      WordsCons(w, ws);
      [w] + ws
  }

  lemma WordsCons(w: string, ws: seq<string>)
    requires IsWord(w) && forall i :: 0 <= i < |ws| ==> IsWord(ws[i])
    ensures forall i :: 0 <= i < |[w] + ws| ==> IsWord(([w] + ws)[i])
  {
  }

  /** A word is copied unchanged by the collapse. */
  lemma {:induction false} CollapseWord(w: string, rest: string)
    requires NoSpace(w)
    ensures CollapseSpaces(w + rest) == w + CollapseSpaces(rest)
    decreases |w|
  {
    if w != [] {
      var c, w' := w[0], w[1..];
      assert w + rest == [c] + (w' + rest);
      assert !IsSpace(c) && NoSpace(w');
      CollapseNonSpace(c, w' + rest);
      CollapseWord(w', rest);
      assert w + CollapseSpaces(rest) == [c] + (w' + CollapseSpaces(rest));
    } else {
      assert w + rest == rest;
    }
  }

  /** A non-white-space character is copied by the collapse. */
  lemma CollapseNonSpace(c: char, t: string)
    requires !IsSpace(c)
    ensures CollapseSpaces([c] + t) == [c] + CollapseSpaces(t)
  {
    assert ([c] + t)[0] == c && ([c] + t)[1..] == t;
  }

  /** A text starting with a word: that word, then the words after it. */
  lemma WordsOfWordStart(d: string)
    requires d != [] && !IsSpace(d[0])
    ensures Words(d) == [LeadingWord(d)] + Words(d[|LeadingWord(d)|..])
  {
    assert DropSpaces(d) == d;
  }

  /** A text starting with white space: its words are those after the run. */
  lemma WordsAfterSpaces(s: string)
    ensures Words(s) == Words(DropSpaces(s))
  {
    var d := DropSpaces(s);
    assert DropSpaces(d) == d;
  }

  /** A leading white-space run collapses to one space. */
  lemma CollapseSpaceStart(s: string)
    requires s != [] && IsSpace(s[0])
    ensures CollapseSpaces(s) == [' '] + CollapseSpaces(DropSpaces(s))
  {
  }

  /** The suffix that white space is dropped from ends like the text. */
  lemma DropSpacesLast(s: string)
    requires DropSpaces(s) != []
    ensures s[|s| - 1] == DropSpaces(s)[|DropSpaces(s)| - 1]
  {
  }

  /** Joining a word before non-empty joined words puts one space between. */
  lemma JoinCons(w: string, ws: seq<string>)
    requires ws != []
    ensures Join([w] + ws, " ") == w + " " + Join(ws, " ")
  {
    assert ([w] + ws)[1..] == ws;
  }

  /** The trailing term of the collapse: one space when the text ends in
      white space. */
  function TrailingSpace(d: string): (r: string)
    ensures forall k :: 0 <= k < |r| ==> IsSpace(r[k])
  {
    if |d| > 0 && IsSpace(d[|d| - 1]) then " " else ""
  }

  /** From the start of a word, the collapse is the words joined by single
      spaces, and one more space when the text ends in white space. */
  lemma {:induction false} CollapseFromWord(d: string)
    requires d == [] || !IsSpace(d[0])
    ensures CollapseSpaces(d) == Join(Words(d), " ") + TrailingSpace(d)
    decreases |d|
  {
    if d != [] {
      var w := LeadingWord(d);
      var rest := d[|w|..];
      assert d == w + rest;
      CollapseWord(w, rest);
      WordsOfWordStart(d);
      if rest == [] {
        assert Words(rest) == [];
        assert Join([w], " ") == w;
        assert d[|d| - 1] == w[|w| - 1];
      } else {
        CollapseAfterWord(d, w, rest);
      }
    }
  }

  /** The step of `CollapseFromWord` past a word followed by white space. */
  lemma {:induction false} CollapseAfterWord(d: string, w: string, rest: string)
    requires d != [] && !IsSpace(d[0]) && w == LeadingWord(d) && rest == d[|w|..] && rest != []
    requires CollapseSpaces(d) == w + CollapseSpaces(rest)
    requires Words(d) == [w] + Words(rest)
    ensures CollapseSpaces(d) == Join(Words(d), " ") + TrailingSpace(d)
    decreases |d|, 0
  {
    var d' := DropSpaces(rest);
    CollapseSpaceStart(rest);
    WordsAfterSpaces(rest);
    LastOfSuffix(d, |w|);
    if d' == [] {
      DropSpacesAllSpace(rest);
      assert Words(d) == [w];
      assert Join([w], " ") == w;
      assert CollapseSpaces(d) == w + " ";
    } else {
      assert |d'| < |d|;
      CollapseFromWord(d');
      SuffixTrailing(d, rest, d');
      WordsOfWordStart(d');
      CollapseJoinStep(CollapseSpaces(d), w, Words(d), Words(d'), CollapseSpaces(d'), TrailingSpace(d'));
    }
  }

  /** Pure algebra of one step: a word, a space, then the rest's collapse. */
  lemma CollapseJoinStep(c: string, w: string, ws: seq<string>, ws': seq<string>, c': string, t: string)
    requires ws' != [] && ws == [w] + ws'
    requires c == w + ([' '] + c') && c' == Join(ws', " ") + t
    ensures c == Join(ws, " ") + t
  {
    JoinCons(w, ws');
    var j := Join(ws', " ");
    assert w + ([' '] + (j + t)) == (w + " " + j) + t;
  }

  /** The rest after the spaces ends like the text. */
  lemma SuffixTrailing(d: string, rest: string, d': string)
    requires |rest| <= |d| && rest == d[|d| - |rest|..]
    requires d' != [] && d' == DropSpaces(rest)
    ensures TrailingSpace(d) == TrailingSpace(d')
  {
    DropSpacesLast(rest);
    assert rest[|rest| - 1] == d[|d| - 1];
    SameLastChar(d, d');
  }

  /** Texts that end in the same character end alike. */
  lemma SameLastChar(a: string, b: string)
    requires a != [] && b != [] && a[|a| - 1] == b[|b| - 1]
    ensures TrailingSpace(a) == TrailingSpace(b)
  {
  }

  lemma DropSpacesAllSpace(s: string)
    requires s != [] && DropSpaces(s) == []
    ensures TrailingSpace(s) == " "
  {
    assert IsSpace(s[|s| - 1]);
  }

  lemma LastOfSuffix(d: string, n: nat)
    requires n < |d|
    ensures TrailingSpace(d) == TrailingSpace(d[n..])
  {
    assert d[|d| - 1] == d[n..][|d| - n - 1];
  }

  /** The collapse is the words joined by single spaces, with one space in
      front when the text starts with white space and one behind when it
      ends with white space after a word. */
  lemma CollapseIsWords(s: string)
    ensures CollapseSpaces(s) == LeadingSpace(s) + (Join(Words(s), " ") + TrailingAfterWords(s))
  {
    if s != [] && IsSpace(s[0]) {
      var d := DropSpaces(s);
      CollapseSpaceStart(s);
      WordsAfterSpaces(s);
      CollapseFromWord(d);
      if d != [] {
        SuffixTrailing(s, s, d);
        WordsOfWordStart(d);
      } else {
        assert Words(d) == [];
        assert CollapseSpaces(d) == [];
        EmptyAppend(" ");
        EmptyAppend(Join(Words(s), " ") + "");
      }
    } else if s == [] {
      assert Words(s) == [];
      assert CollapseSpaces(s) == [];
    } else {
      CollapseFromWord(s);
      WordsOfWordStart(s);
      EmptyAppend(Join(Words(s), " ") + TrailingSpace(s));
    }
  }

  lemma EmptyAppend(x: string)
    ensures "" + x == x && x + "" == x
  {
  }

  /** The trailing term of the collapse: one space when white space follows
      the last word. */
  function TrailingAfterWords(s: string): (r: string)
    ensures forall k :: 0 <= k < |r| ==> IsSpace(r[k])
  {
    if Words(s) != [] then TrailingSpace(s) else ""
  }

  /** The leading term of the collapse: one space when the text starts with
      white space. */
  function LeadingSpace(s: string): (r: string)
    ensures forall k :: 0 <= k < |r| ==> IsSpace(r[k])
  {
    if |s| > 0 && IsSpace(s[0]) then " " else ""
  }

  /** Joined words neither start nor end with white space. */
  lemma {:induction false} JoinedWordsUnpadded(ws: seq<string>)
    requires forall i :: 0 <= i < |ws| ==> IsWord(ws[i])
    ensures Join(ws, " ") == [] || (!IsSpace(Join(ws, " ")[0]) && !IsSpace(Join(ws, " ")[|Join(ws, " ")| - 1]))
  {
    if |ws| > 1 {
      JoinedWordsUnpadded(ws[1..]);
      var t := Join(ws[1..], " ");
      assert Join(ws, " ") == ws[0] + (" " + t);
    }
  }

  /** Trimming removes exactly the white space around unpadded text. */
  lemma {:induction false} TrimStartExact(a: string, t: string)
    requires forall k :: 0 <= k < |a| ==> IsSpace(a[k])
    requires t == [] || !IsSpace(t[0])
    ensures TrimStart(a + t) == t
    decreases |a|
  {
    if a != [] {
      assert (a + t)[0] == a[0] && (a + t)[1..] == a[1..] + t;
      TrimStartExact(a[1..], t);
    } else {
      assert a + t == t;
    }
  }

  lemma {:induction false} TrimEndExact(t: string, b: string)
    requires forall k :: 0 <= k < |b| ==> IsSpace(b[k])
    requires t == [] || !IsSpace(t[|t| - 1])
    ensures TrimEnd(t + b) == t
    decreases |b|
  {
    if b != [] {
      var s := t + b;
      assert s[|s| - 1] == b[|b| - 1] && s[..|s| - 1] == t + b[..|b| - 1];
      TrimEndExact(t, b[..|b| - 1]);
    } else {
      assert t + b == t;
    }
  }

  lemma TrimExact(a: string, m: string, b: string)
    requires forall k :: 0 <= k < |a| ==> IsSpace(a[k])
    requires forall k :: 0 <= k < |b| ==> IsSpace(b[k])
    requires m == [] || (!IsSpace(m[0]) && !IsSpace(m[|m| - 1]))
    ensures Trim(a + (m + b)) == m
  {
    if m == [] {
      assert a + (m + b) == (a + b) + [];
      TrimStartExact(a + b, []);
    } else {
      TrimStartExact(a, m + b);
      TrimEndExact(m, b);
    }
  }

  /** Collapsing and trimming leaves the words joined by single spaces. */
  lemma CleanedIsWords(text: string)
    ensures Trim(CollapseSpaces(text)) == Join(Words(text), " ")
  {
    CollapseIsWords(text);
    JoinedWordsUnpadded(Words(text));
    TrimExact(LeadingSpace(text), Join(Words(text), " "), TrailingAfterWords(text));
  }

  lemma {:induction false} NonSpacesOfSpaces(s: string, n: nat)
    requires n <= |s| && forall i :: 0 <= i < n ==> IsSpace(s[i])
    ensures Lists.Filter(s, NotSpace) == Lists.Filter(s[n..], NotSpace)
    decreases n
  {
    if n > 0 {
      NonSpacesOfSpaces(s[1..], n - 1);
      assert s[1..][n - 1..] == s[n..];
    }
  }

  /** A slice of a single-spaced text is single-spaced. */
  lemma SingleSpacedSlice(r: string, i: nat, j: nat)
    requires SingleSpaced(r) && i <= j <= |r|
    ensures SingleSpaced(r[i..j])
  {
    assert forall k :: 0 <= k < j - i ==> r[i..j][k] == r[i + k];
  }

  lemma TrimSingleSpaced(c: string)
    requires SingleSpaced(c)
    ensures SingleSpaced(Trim(c))
  {
    var s1 := TrimStart(c);
    assert s1 == c[|c| - |s1|..|c|];
    SingleSpacedSlice(c, |c| - |s1|, |c|);
    var t := Trim(c);
    assert t == s1[0..|t|];
    SingleSpacedSlice(s1, 0, |t|);
  }

  /** Whitespace runs collapsed to one space, then trimmed. */
  function Cleaned(text: string): (t: string)
    ensures |t| <= |text|
    ensures SingleSpaced(t)
    ensures |t| > 0 ==> !IsSpace(t[0]) && !IsSpace(t[|t| - 1])
    ensures Lists.Filter(t, NotSpace) == Lists.Filter(text, NotSpace)
    ensures t == Join(Words(text), " ")
  {
    var c := CollapseSpaces(text);
    CleanedIsWords(text);
    CollapseSingleSpaced(text);
    CollapseKeepsText(text);
    TrimSingleSpaced(c);
    TrimKeepsText(c);
    Trim(c)
  }

  /** Trimming removes whitespace only. */
  lemma TrimKeepsText(c: string)
    ensures Lists.Filter(Trim(c), NotSpace) == Lists.Filter(c, NotSpace)
  {
    TrimStartKeepsText(c);
    TrimEndKeepsText(TrimStart(c));
  }

  /** `trimStart` removes whitespace only. */
  lemma TrimStartKeepsText(c: string)
    ensures Lists.Filter(TrimStart(c), NotSpace) == Lists.Filter(c, NotSpace)
  {
    var s1 := TrimStart(c);
    assert c[|c| - |s1|..] == s1;
    NonSpacesOfSpaces(c, |c| - |s1|);
  }

  /** `trimEnd` removes whitespace only. */
  lemma TrimEndKeepsText(s: string)
    ensures Lists.Filter(TrimEnd(s), NotSpace) == Lists.Filter(s, NotSpace)
  {
    var t := TrimEnd(s);
    var u := s[|t|..];
    assert s == t + u by { assert s[..|t|] == t; }
    assert forall i :: 0 <= i < |u| ==> u[i] == s[|t| + i];
    NonSpacesOfSpaces(u, |u|);
    assert u[|u|..] == [];
    Lists.FilterAppend(t, u, NotSpace);
    assert Lists.Filter(t, NotSpace) + [] == Lists.Filter(t, NotSpace);
  }

  lemma EllipsisSingleSpaced(t: string)
    requires SingleSpaced(t)
    ensures SingleSpaced(t + "...")
  {
    var r := t + "...";
    assert forall i :: |t| <= i < |r| ==> r[i] == '.';
    assert forall i :: 0 <= i < |t| ==> r[i] == t[i];
  }

  /** The cleaned text, cut to 60 characters plus "..." when longer. */
  function DisplayText(text: string): (r: string)
    ensures |r| <= TruncateLength + 3
    ensures |Cleaned(text)| <= TruncateLength ==> r == Cleaned(text)
    ensures |Cleaned(text)| > TruncateLength ==> r == Cleaned(text)[..TruncateLength] + "..."
    ensures SingleSpaced(r)
  {
    var t := Cleaned(text);
    if |t| > TruncateLength then
      SingleSpacedSlice(t, 0, TruncateLength);
      EllipsisSingleSpaced(t[..TruncateLength]);
      t[..TruncateLength] + "..."
    else t
  }

  /** `isValidElementLike`: an object with `props` whose `key`, if present,
      is null or a string. */
  predicate IsElementLike(v: Json) {
    IsObjectLike(v) && HasKey(v, "props")
    && (!HasKey(v, "key") || Member(v, "key").Null? || Member(v, "key").Str?)
  }

  /** `String(n)` for the integers the model has. */
  function NumberText(n: int): string { IntToString(n) }

  /** `extractTextFromReactNode`: strings and numbers as text, arrays
      concatenated, `props.children` followed; anything else is "". */
  function ElementText(node: Json): (r: string)
    decreases Size(node)
    ensures !Truthy(node) ==> r == ""
    ensures node.Bool? ==> r == ""
  {
    if !Truthy(node) then ""
    else match node
      case Str(s) => s
      case Num(n) => NumberText(n)
      case Arr(items) => ConcatTexts(node, 0)
      case Obj(_) =>
        var props := Member(node, "props");
        if Truthy(props) && Truthy(Member(props, "children")) then ElementText(Member(props, "children")) else ""
      case _ => ""
  }

  function ConcatTexts(arr: Json, from: nat): string
    requires arr.Arr? && from <= |arr.items|
    decreases Size(arr), |arr.items| - from
  {
    if from == |arr.items| then ""
    else
      ItemSmaller(arr.items, from);
      ElementText(arr.items[from]) + ConcatTexts(arr, from + 1)
  }

  /** The raw text of `parseContentValue` before clean-up, or None when the
      value is null, undefined or a plain object. */
  function RawText(value: Json): (r: Option<string>)
    decreases Size(value), 1
    ensures value.Null? || value.Undefined? ==> r == None
    ensures value.Bool? ==> r == Some("")
    ensures value.Obj? && !IsElementLike(value) ==> r == None
    ensures value.Str? ==> r == Some(value.s)
  {
    match value
    case Null => None
    case Undefined => None
    case Str(s) => Some(s)
    case Num(n) => Some(NumberText(n))
    case Arr(_) => Some(JoinParsed(value, 0))
    case Obj(_) => if IsElementLike(value) then Some(ElementText(value)) else None
    case Bool(_) => Some("")
  }

  /** `value.map(parseContentValue).join("")`: a null entry contributes "". */
  function JoinParsed(arr: Json, from: nat): string
    requires arr.Arr? && from <= |arr.items|
    decreases Size(arr), 0, |arr.items| - from
  {
    if from == |arr.items| then ""
    else
      ItemSmaller(arr.items, from);
      ParseContentValue(arr.items[from]).GetOr("") + JoinParsed(arr, from + 1)
  }

  /** `parseContentValue`: the text a value shows, cleaned up and truncated;
      None for null, undefined, booleans, plain objects and empty text. */
  function ParseContentValue(value: Json): (r: Option<string>)
    decreases Size(value), 2
    ensures r.Some? ==> |r.value| <= TruncateLength + 3 && SingleSpaced(r.value)
    ensures value.Null? || value.Undefined? || value.Bool? ==> r == None
    ensures value.Obj? && !IsElementLike(value) ==> r == None
    ensures value.Str? ==> r == (if value.s == "" then None else Some(DisplayText(value.s)))
  {
    match RawText(value)
    case None => None
    case Some(text) => if text == "" then None else Some(DisplayText(text))
  }

  // ---- Lookup ----

  /** The decoration's own `getValueFromPath`: no accessor skipping, a falsy
      value is null, and a translation picks `translation[locale] || first value`. */
  function LookupValue(content: Json, path: seq<string>, locale: string): (r: Json)
    ensures Walk(content, path).None? ==> r == Null
    ensures Walk(content, path).Some? && !Truthy(Walk(content, path).value) ==> r == Null
    ensures (Walk(content, path).Some? && Truthy(Walk(content, path).value)
             && !ValueResolver.IsTranslationNode(Walk(content, path).value)) ==> r == Walk(content, path).value
    ensures Walk(content, path).Some? && ValueResolver.IsTranslationNode(Walk(content, path).value) ==>
              var tr := Member(Walk(content, path).value, "translation");
              (Truthy(Member(tr, locale)) ==> r == Member(tr, locale))
              && (!Truthy(Member(tr, locale)) ==> r == First(Values(tr)))
  {
    match Walk(content, path)
    case None => Null
    case Some(v) =>
      if !Truthy(v) then Null
      else if ValueResolver.IsTranslationNode(v) then
        var tr := Member(v, "translation");
        Or(Member(tr, locale), First(Values(tr)))
      else v
  }

  /** Unlike the shared resolver, the preview falls back on any falsy entry
      and skips English: when the locale's entry is "", the resolver yields
      "" and the preview the first entry, whatever the English one is. */
  lemma PreviewFallbackDiffers(tr: Json, locale: string)
    requires Truthy(tr) && Member(tr, locale) == Str("")
    ensures var t := ValueResolver.Tagged("translation", "translation", tr);
            LookupValue(t, [], locale) == First(Values(tr))
            && ValueResolver.GetValueFromPath(t, [], locale) == Str("")
  {
    var t := ValueResolver.Tagged("translation", "translation", tr);
    assert ValueResolver.IsTranslationNode(t) && Member(t, "translation") == tr by {
      ValueResolver.TaggedMembers("translation", "translation", tr);
    }
    assert LookupValue(t, [], locale) == Or(Str(""), First(Values(tr)));
    assert ValueResolver.GetValueFromPath(t, [], locale) == ValueResolver.ResolveNode(t, locale) by {
      ValueResolver.ValueIsFilteredLookup(t, [], locale);
      assert ValueResolver.ContentKeys([]) == [];
    }
    assert ValueResolver.ResolveNode(t, locale) == ValueResolver.ResolveNode(Str(""), locale) by {
      ValueResolver.TranslationPicksLocale(tr, locale);
    }
  }

  // ---- The accessor call ----

  /** A variable bound to the call's result, with the dictionary path it starts at. */
  datatype Variable = Variable(name: string, path: seq<string>)

  /** `analyzeUseIntlayerCall`: the dictionary key (only for a literal first
      argument) and the bound variables. */
  function AnalyzeCall(c: CallSite): (r: (Option<string>, seq<Variable>))
    ensures !IsAccessorCallee(c.callee) || c.args == [] ==> r == (None, [])
    ensures r.0.Some? <==> IsAccessorCallee(c.callee) && |c.args| > 0 && c.args[0].Literal?
    ensures r.0.Some? ==> r.0.value == c.args[0].text
    ensures IsAccessorCallee(c.callee) && |c.args| > 0 && c.binding.BindName? ==> r.1 == [Variable(c.binding.name, [])]
    ensures IsAccessorCallee(c.callee) && |c.args| > 0 && c.binding.BindObject? ==>
              |r.1| == |c.binding.elements|
              && forall i :: 0 <= i < |r.1| ==>
                   r.1[i].name == c.binding.elements[i].name.text
                   && r.1[i].path == [if c.binding.elements[i].propertyName.Some?
                                      then c.binding.elements[i].propertyName.value.text
                                      else c.binding.elements[i].name.text]
  {
    if !IsAccessorCallee(c.callee) || c.args == [] then (None, [])
    else
      var key := LiteralText(c.args[0]);
      var vars := match c.binding
        case BindObject(es) =>
          seq(|es|, i requires 0 <= i < |es| =>
            Variable(es[i].name.text, [if es[i].propertyName.Some? then es[i].propertyName.value.text else es[i].name.text]))
        case BindName(name, _) => [Variable(name, [])]
        case _ => [];
      (key, vars)
  }

  /** `isDeclarationIdentifier`: any direct child of a binding element, a
      variable or a parameter declaration (its name or its initializer), or
      the name of a property assignment. */
  predicate IsDeclarationIdentifier(id: Identifier): (r: bool)
    ensures r ==> ResolvePropertyAccess(id).0 == [] && !id.parent.ElementObject?
    ensures id.parent.MemberObject? || id.parent.ElementObject? || id.parent.OtherParent? ==> !r
  {
    id.parent.Declaration? || id.parent.PropertyName?
  }

  function Texts(ts: seq<Token>): (r: seq<string>)
    ensures |r| == |ts| && forall i :: 0 <= i < |ts| ==> r[i] == ts[i].text
  {
    seq(|ts|, i requires 0 <= i < |ts| => ts[i].text)
  }

  /** `resolvePropertyAccess`: the property names applied to the reference,
      root to leaf, and where the outermost access ends. */
  function ResolvePropertyAccess(id: Identifier): (r: (seq<string>, Pos))
    ensures id.parent.MemberObject? ==> r.0 == [id.parent.first.text] + Texts(id.parent.more)
    ensures !id.parent.MemberObject? ==> r == ([], id.range.end)
  {
    match id.parent
    case MemberObject(first, more) =>
      ([first.text] + Texts(more), if more == [] then first.range.end else more[|more| - 1].range.end)
    case _ => ([], id.range.end)
  }

  /** A preview to show: the line it goes on and its text. */
  datatype Preview = Preview(line: nat, text: string)

  /** Preview text starts with four spaces of indentation. */
  predicate Indented(p: Preview) { |p.text| > 4 && p.text[..4] == "    " }

  /** The dictionary path a reference reads: the variable's path, then the
      property accesses on the reference without a trailing accessor. */
  function ContentPath(v: Variable, id: Identifier): (r: seq<string>)
    ensures |r| >= |v.path| && r[..|v.path|] == v.path
  {
    v.path + ValueResolver.StripValueAccessor(ResolvePropertyAccess(id).0)
  }

  /** The preview one reference would produce: four spaces and the text of
      the value found, at the end of the line where the access ends; none
      when the value is falsy or shows no text. */
  function ReferencePreview(content: Json, v: Variable, id: Identifier, locale: string): (r: Option<Preview>)
    ensures r.Some? ==> Indented(r.value)
    ensures r.Some? <==> Truthy(LookupValue(content, ContentPath(v, id), locale))
                         && ParseContentValue(LookupValue(content, ContentPath(v, id), locale)).Some?
                         && ParseContentValue(LookupValue(content, ContentPath(v, id), locale)).value != ""
    ensures r.Some? ==> r.value == Preview(ResolvePropertyAccess(id).1.line,
                                           "    " + ParseContentValue(LookupValue(content, ContentPath(v, id), locale)).value)
  {
    var (fullPath, end) := ResolvePropertyAccess(id);
    var raw := LookupValue(content, ContentPath(v, id), locale);
    if !Truthy(raw) then None
    else match ParseContentValue(raw)
      case None => None
      case Some(text) => if text == "" then None else Some(Preview(end.line, "    " + text))
  }

  /** Identifier `j` is a reference to `v`: same text, not a declaration. */
  predicate IsReference(f: SourceFile, v: Variable, j: int) {
    0 <= j < |f.identifiers| && f.identifiers[j].text == v.name && !IsDeclarationIdentifier(f.identifiers[j])
  }

  /** The previews of a variable's references, in document order. */
  function VariablePreviews(f: SourceFile, content: Json, v: Variable, locale: string): (r: seq<Preview>)
    ensures forall p :: p in r <==> exists j :: IsReference(f, v, j) && ReferencePreview(content, v, f.identifiers[j], locale) == Some(p)
  {
    ReferenceSlotsIff(f, content, v, locale);
    Somes(ReferenceSlots(f, content, v, locale))
  }

  /** One slot per identifier: the preview of a reference, `None` for any
      other occurrence. */
  function ReferenceSlots(f: SourceFile, content: Json, v: Variable, locale: string): (xs: seq<Option<Preview>>)
    ensures |xs| == |f.identifiers|
    ensures forall j :: 0 <= j < |xs| ==> xs[j] == if IsReference(f, v, j) then ReferencePreview(content, v, f.identifiers[j], locale) else None
  {
    seq(|f.identifiers|, j requires 0 <= j < |f.identifiers| =>
      if IsReference(f, v, j) then ReferencePreview(content, v, f.identifiers[j], locale) else None)
  }

  /** The previews in the slots are exactly those the references give. */
  lemma ReferenceSlotsIff(f: SourceFile, content: Json, v: Variable, locale: string)
    ensures forall p :: Some(p) in ReferenceSlots(f, content, v, locale) <==>
              exists j :: IsReference(f, v, j) && ReferencePreview(content, v, f.identifiers[j], locale) == Some(p)
  {
    forall p
      ensures Some(p) in ReferenceSlots(f, content, v, locale) <==>
              exists j :: IsReference(f, v, j) && ReferencePreview(content, v, f.identifiers[j], locale) == Some(p)
    {
      SlotOfReference(f, content, v, locale, p);
    }
  }

  /** One preview: it is in a slot exactly when a reference gives it. */
  lemma SlotOfReference(f: SourceFile, content: Json, v: Variable, locale: string, p: Preview)
    ensures Some(p) in ReferenceSlots(f, content, v, locale) <==>
            exists j :: IsReference(f, v, j) && ReferencePreview(content, v, f.identifiers[j], locale) == Some(p)
  {
    var xs := ReferenceSlots(f, content, v, locale);
    if Some(p) in xs {
      var j :| 0 <= j < |xs| && xs[j] == Some(p);
      SlotIsReference(f, content, v, locale, p, j);
    }
    if exists j :: IsReference(f, v, j) && ReferencePreview(content, v, f.identifiers[j], locale) == Some(p) {
      var j :| IsReference(f, v, j) && ReferencePreview(content, v, f.identifiers[j], locale) == Some(p);
      ReferenceHasSlot(f, content, v, locale, j);
    }
  }

  /** A filled slot belongs to a reference. */
  lemma SlotIsReference(f: SourceFile, content: Json, v: Variable, locale: string, p: Preview, j: int)
    requires 0 <= j < |ReferenceSlots(f, content, v, locale)| && ReferenceSlots(f, content, v, locale)[j] == Some(p)
    ensures IsReference(f, v, j) && ReferencePreview(content, v, f.identifiers[j], locale) == Some(p)
  {
  }

  /** A reference's slot holds its preview. */
  lemma ReferenceHasSlot(f: SourceFile, content: Json, v: Variable, locale: string, j: int)
    requires IsReference(f, v, j)
    ensures ReferenceSlots(f, content, v, locale)[j] == ReferencePreview(content, v, f.identifiers[j], locale)
  {
  }

  /** An occurrence that declares or initialises a binding is never a
      reference: a variable all of whose occurrences are such gets no
      preview, even `title` in `const copy = title`. */
  lemma DeclarationsGiveNoPreview(f: SourceFile, content: Json, v: Variable, locale: string)
    requires forall j :: 0 <= j < |f.identifiers| && f.identifiers[j].text == v.name ==> f.identifiers[j].parent.Declaration?
    ensures forall p :: p !in VariablePreviews(f, content, v, locale)
  {
    assert forall j :: !IsReference(f, v, j);
  }

  /** The dictionary a call's previews read: the first one stored under its
      literal, non-empty key, when the call binds variables. */
  predicate CallReadsDictionary(c: CallSite, dictionaries: map<string, seq<Dictionary>>) {
    var (key, vars) := AnalyzeCall(c);
    key.Some? && key.value != "" && vars != [] && key.value in dictionaries && dictionaries[key.value] != []
  }

  /** The content of the dictionary a call reads. */
  function CallContent(c: CallSite, dictionaries: map<string, seq<Dictionary>>): Json
    requires CallReadsDictionary(c, dictionaries)
  {
    dictionaries[AnalyzeCall(c).0.value][0].content
  }

  /** All previews of one call: nothing without a non-empty key, a variable,
      or a non-empty dictionary list; else those of each variable's
      references into the first dictionary. */
  function CallPreviews(f: SourceFile, c: CallSite, dictionaries: map<string, seq<Dictionary>>, locale: string): (r: seq<Preview>)
    ensures !CallReadsDictionary(c, dictionaries) ==> r == []
    ensures CallReadsDictionary(c, dictionaries) ==>
              forall p :: p in r <==> exists i :: 0 <= i < |AnalyzeCall(c).1|
                                                  && p in VariablePreviews(f, CallContent(c, dictionaries), AnalyzeCall(c).1[i], locale)
  {
    if !CallReadsDictionary(c, dictionaries) then []
    else
      var xss := PreviewLists(f, c, dictionaries, locale);
      FlattenMembers(xss);
      Flatten(xss)
  }

  /** The previews of each variable a call binds, variable by variable. */
  function PreviewLists(f: SourceFile, c: CallSite, dictionaries: map<string, seq<Dictionary>>, locale: string): (r: seq<seq<Preview>>)
    requires CallReadsDictionary(c, dictionaries)
    ensures |r| == |AnalyzeCall(c).1|
    ensures forall i :: 0 <= i < |r| ==> r[i] == VariablePreviews(f, CallContent(c, dictionaries), AnalyzeCall(c).1[i], locale)
  {
    var vars := AnalyzeCall(c).1;
    seq(|vars|, i requires 0 <= i < |vars| => VariablePreviews(f, CallContent(c, dictionaries), vars[i], locale))
  }

  function Flatten<T>(xss: seq<seq<T>>): seq<T> {
    if xss == [] then [] else xss[0] + Flatten(xss[1..])
  }

  /** An element of the flattened list is an element of one of the lists. */
  lemma {:induction false} FlattenMembers<T>(xss: seq<seq<T>>)
    ensures forall x :: x in Flatten(xss) <==> exists i :: 0 <= i < |xss| && x in xss[i]
  {
    if xss != [] {
      FlattenMembers(xss[1..]);
      forall x ensures x in Flatten(xss) <==> exists i :: 0 <= i < |xss| && x in xss[i] {
        if x in Flatten(xss[1..]) {
          var i :| 0 <= i < |xss[1..]| && x in xss[1..][i];
          assert x in xss[i + 1];
        }
        if exists i :: 0 <= i < |xss| && x in xss[i] {
          var i :| 0 <= i < |xss| && x in xss[i];
          if i > 0 { assert x in xss[1..][i - 1]; }
        }
      }
    }
  }

  /** `processedLines`: keep the first preview of each line. */
  function OnePerLine(ps: seq<Preview>, seen: set<nat>): (r: seq<Preview>)
    decreases |ps|
    ensures forall i :: 0 <= i < |r| ==> r[i] in ps && r[i].line !in seen
    ensures forall i, j :: 0 <= i < j < |r| ==> r[i].line != r[j].line
  {
    if ps == [] then []
    else if ps[0].line in seen then OnePerLine(ps[1..], seen)
    else
      var rest := OnePerLine(ps[1..], seen + {ps[0].line});
      assert forall i :: 0 <= i < |rest| ==> rest[i] in ps[1..] && rest[i].line != ps[0].line;
      [ps[0]] + rest
  }

  /** Every line some preview targets, and no earlier one did, gets one. */
  lemma {:induction false} OnePerLineCovers(ps: seq<Preview>, seen: set<nat>, p: Preview)
    requires p in ps && p.line !in seen
    ensures exists i :: 0 <= i < |OnePerLine(ps, seen)| && OnePerLine(ps, seen)[i].line == p.line
    decreases |ps|
  {
    var r := OnePerLine(ps, seen);
    if ps[0].line in seen {
      assert p in ps[1..];
      OnePerLineCovers(ps[1..], seen, p);
    } else if p.line == ps[0].line {
      assert r[0].line == p.line;
    } else {
      assert p in ps[1..];
      OnePerLineCovers(ps[1..], seen + {ps[0].line}, p);
      var rest := OnePerLine(ps[1..], seen + {ps[0].line});
      var i :| 0 <= i < |rest| && rest[i].line == p.line;
      assert r[i + 1] == rest[i];
    }
  }

  /** `ps[k]` is the first preview for its line. */
  predicate FirstOfLine(ps: seq<Preview>, k: int) {
    0 <= k < |ps| && forall k' :: 0 <= k' < k ==> ps[k'].line != ps[k].line
  }

  /** Every preview kept is the first one for its line. */
  lemma {:induction false} OnePerLineFirst(ps: seq<Preview>, seen: set<nat>, i: nat)
    requires i < |OnePerLine(ps, seen)|
    ensures exists k :: FirstOfLine(ps, k) && ps[k] == OnePerLine(ps, seen)[i]
    decreases |ps|
  {
    var r := OnePerLine(ps, seen);
    if ps[0].line in seen {
      OnePerLineFirst(ps[1..], seen, i);
      var k :| FirstOfLine(ps[1..], k) && ps[1..][k] == r[i];
      assert r[i].line !in seen;
      assert FirstOfLine(ps, k + 1);
    } else if i == 0 {
      assert FirstOfLine(ps, 0);
    } else {
      var rest := OnePerLine(ps[1..], seen + {ps[0].line});
      assert r[i] == rest[i - 1];
      OnePerLineFirst(ps[1..], seen + {ps[0].line}, i - 1);
      var k :| FirstOfLine(ps[1..], k) && ps[1..][k] == rest[i - 1];
      assert rest[i - 1].line !in seen + {ps[0].line};
      assert FirstOfLine(ps, k + 1);
    }
  }

  /** Two previews first for the same line are the same one. */
  lemma FirstOfLineUnique(ps: seq<Preview>, k1: int, k2: int)
    requires FirstOfLine(ps, k1) && FirstOfLine(ps, k2) && ps[k1].line == ps[k2].line
    ensures k1 == k2
  {
  }

  /** The previews of each call, call by call. */
  function CallPreviewLists(f: SourceFile, dictionaries: map<string, seq<Dictionary>>, locale: string): (r: seq<seq<Preview>>)
    ensures |r| == |f.calls|
    ensures forall i :: 0 <= i < |r| ==> r[i] == CallPreviews(f, f.calls[i], dictionaries, locale)
  {
    seq(|f.calls|, i requires 0 <= i < |f.calls| => CallPreviews(f, f.calls[i], dictionaries, locale))
  }

  /** The candidate previews: those of every call, in call order. */
  function Candidates(f: SourceFile, dictionaries: map<string, seq<Dictionary>>, locale: string): (r: seq<Preview>)
    ensures forall p :: p in r <==> exists i :: 0 <= i < |f.calls| && p in CallPreviews(f, f.calls[i], dictionaries, locale)
    ensures forall p :: p in r ==> Indented(p)
  {
    var xss := CallPreviewLists(f, dictionaries, locale);
    FlattenMembers(xss);
    assert forall p :: p in Flatten(xss) ==> Indented(p) by {
      forall p | p in Flatten(xss)
        ensures Indented(p)
      {
        var i :| 0 <= i < |xss| && p in xss[i];
        CallPreviewsIndented(f, f.calls[i], dictionaries, locale);
      }
    }
    Flatten(xss)
  }

  /** `updateDecorations`: of the candidate previews, exactly the first one
      for each line, so every line some candidate targets gets one. */
  function UpdateDecorations(f: SourceFile, dictionaries: map<string, seq<Dictionary>>, locale: string): (r: seq<Preview>)
    ensures forall i, j :: 0 <= i < j < |r| ==> r[i].line != r[j].line
    ensures forall i :: 0 <= i < |r| ==> Indented(r[i])
    ensures forall i :: 0 <= i < |r| ==> exists k :: FirstOfLine(Candidates(f, dictionaries, locale), k)
                                                    && Candidates(f, dictionaries, locale)[k] == r[i]
    ensures forall k :: FirstOfLine(Candidates(f, dictionaries, locale), k) ==> Candidates(f, dictionaries, locale)[k] in r
  {
    var all := Candidates(f, dictionaries, locale);
    OnePerLineExact(all);
    OnePerLine(all, {})
  }

  /** Keeping one preview per line keeps exactly the first for each line. */
  lemma OnePerLineExact(ps: seq<Preview>)
    ensures forall i :: 0 <= i < |OnePerLine(ps, {})| ==> exists k :: FirstOfLine(ps, k) && ps[k] == OnePerLine(ps, {})[i]
    ensures forall k :: FirstOfLine(ps, k) ==> ps[k] in OnePerLine(ps, {})
  {
    var r := OnePerLine(ps, {});
    forall i | 0 <= i < |r|
      ensures exists k :: FirstOfLine(ps, k) && ps[k] == r[i]
    {
      OnePerLineFirst(ps, {}, i);
    }
    forall k | FirstOfLine(ps, k)
      ensures ps[k] in r
    {
      OnePerLineCovers(ps, {}, ps[k]);
      var i :| 0 <= i < |r| && r[i].line == ps[k].line;
      OnePerLineFirst(ps, {}, i);
      var k' :| FirstOfLine(ps, k') && ps[k'] == r[i];
      FirstOfLineUnique(ps, k, k');
    }
  }

  /** Every preview of a call is indented. */
  lemma CallPreviewsIndented(f: SourceFile, c: CallSite, dictionaries: map<string, seq<Dictionary>>, locale: string)
    ensures forall p :: p in CallPreviews(f, c, dictionaries, locale) ==> Indented(p)
  {
    forall p | p in CallPreviews(f, c, dictionaries, locale)
      ensures Indented(p)
    {
      var vars := AnalyzeCall(c).1;
      var content := CallContent(c, dictionaries);
      var i :| 0 <= i < |vars| && p in VariablePreviews(f, content, vars[i], locale);
      var j :| IsReference(f, vars[i], j) && ReferencePreview(content, vars[i], f.identifiers[j], locale) == Some(p);
    }
  }
}
