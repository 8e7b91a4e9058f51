/** Where a content field is declared (src/utils/findFieldLocation.ts): the
    position of the last key of a key path inside a dictionary file. JSON
    files are searched textually for `"key":` one key after the other; code
    files are walked through their default-exported object literal. Reading
    the file is an oracle (`None` when it fails), and so is the parse of a
    code file. */
module FieldLocation {
  import opened Wrappers
  import opened Text
  import opened Syntax
  import opened Document
  import Paths

  // ---- JSON files: `(["'])key\1\s*:` searched from where the last key ended ----

  /** Where the match of `(["'])key\1\s*:` starting at `i` ends, if one does. */
  function JsonKeyEnd(s: string, key: string, i: nat): (r: Option<nat>)
    ensures r.Some? ==>
              i + |key| + 3 <= r.value <= |s| && IsQuote(s[i]) && At(s, i + 1, key)
              && s[i + 1 + |key|] == s[i] && s[r.value - 1] == ':'
              && forall k :: i + 2 + |key| <= k < r.value - 1 ==> IsSpace(s[k])
    ensures r.None? && i + |key| + 2 < |s| && IsQuote(s[i]) && At(s, i + 1, key) && s[i + 1 + |key|] == s[i] ==>
              var e := RunEnd(s, i + 2 + |key|, IsSpace); e == |s| || s[e] != ':'
  {
    if i + |key| + 2 < |s| && IsQuote(s[i]) && At(s, i + 1, key) && s[i + 1 + |key|] == s[i] then
      var e := RunEnd(s, i + 2 + |key|, IsSpace);
      if e < |s| && s[e] == ':' then Some(e + 1) else None
    else None
  }

  /** One regular-expression match: where it starts and where it ends. */
  datatype JsonMatch = JsonMatch(index: nat, end: nat)

  /** `m` is the leftmost match of `key` at or after `from`. */
  predicate FirstFrom(s: string, key: string, from: nat, m: JsonMatch) {
    from <= m.index && JsonKeyEnd(s, key, m.index) == Some(m.end)
    && forall j :: from <= j < m.index ==> JsonKeyEnd(s, key, j).None?
  }

  /** `regex.exec(content)` with `lastIndex = from`. */
  function FindJsonKey(s: string, key: string, from: nat): (r: Option<JsonMatch>)
    decreases |s| - from
    ensures r.Some? ==> FirstFrom(s, key, from, r.value)
    ensures r.None? ==> forall j :: from <= j ==> JsonKeyEnd(s, key, j).None?
  {
    if from >= |s| then None
    else match JsonKeyEnd(s, key, from)
      case Some(e) => Some(JsonMatch(from, e))
      case None => FindJsonKey(s, key, from + 1)
  }

  /** The matches of the loop of `findLocationInJson`, key by key, each
      searched from the end of the one before; `None` as soon as a key is
      not found. */
  function JsonMatches(s: string, keys: seq<string>, from: nat): (r: Option<seq<JsonMatch>>)
    decreases |keys|
    ensures r.Some? ==> Chain(s, keys, from, r.value)
  {
    if keys == [] then Some([])
    else match FindJsonKey(s, keys[0], from)
      case None => None
      case Some(m) =>
        match JsonMatches(s, keys[1..], m.end)
        case None => None
        case Some(ms) =>
          assert ([m] + ms)[1..] == ms;
          Some([m] + ms)
  }

  /** `ms` are the successive leftmost matches of `keys`, the first searched
      from `from` and each other from the end of the one before. */
  predicate Chain(s: string, keys: seq<string>, from: nat, ms: seq<JsonMatch>)
    decreases |keys|
  {
    |ms| == |keys|
    && (keys != [] ==> FirstFrom(s, keys[0], from, ms[0]) && Chain(s, keys[1..], ms[0].end, ms[1..]))
  }

  /** Where the search for the `i`-th key starts. */
  function SearchStart(from: nat, ms: seq<JsonMatch>, i: nat): nat
    requires i <= |ms|
  {
    if i == 0 then from else ms[i - 1].end
  }

  /** Each match of a chain is the leftmost one from where its search starts. */
  lemma {:induction false} ChainAt(s: string, keys: seq<string>, from: nat, ms: seq<JsonMatch>, i: nat)
    requires Chain(s, keys, from, ms) && i < |keys|
    ensures FirstFrom(s, keys[i], SearchStart(from, ms, i), ms[i])
    decreases i
  {
    if i > 0 {
      ChainAt(s, keys[1..], ms[0].end, ms[1..], i - 1);
    }
  }

  /** The position the source computes for an offset: the text before it
      split at "\n", the number of pieces less one and the last piece's length. */
  function LinePosition(before: string): Pos {
    var lines := Split(before, '\n');
    Pos(|lines| - 1, |lines[|lines| - 1]|)
  }

  /** `findLocationInJson(content, keyPath)`: the position of the last key's
      opening quote; `{0, 0}` for an empty path. */
  function LocationInJson(s: string, keys: seq<string>): (r: Option<Pos>)
    ensures keys == [] ==> r == Some(Pos(0, 0))
    ensures keys != [] ==>
              (r.Some? <==> JsonMatches(s, keys, 0).Some?)
              && (r.Some? ==> var m := JsonMatches(s, keys, 0).value[|keys| - 1];
                               m.index <= |s| && r.value == PositionAt(s, m.index))
  {
    if keys == [] then Some(Pos(0, 0))
    else match JsonMatches(s, keys, 0)
      case None => None
      case Some(ms) =>
        var m := ms[|keys| - 1];
        assert m.index <= |s| by {
          assert Chain(s, keys, 0, ms);
          ChainAt(s, keys, 0, ms, |keys| - 1);
        }
        LinePositionIsPositionAt(s, m.index);
        Some(LinePosition(s[..m.index]))
  }

  /** Splitting a text with one more character at its end. */
  lemma {:induction false} SplitSnoc(s: string, c: char, sep: char)
    ensures Split(s + [c], sep) == Snoc(Split(s, sep), c, sep)
    decreases |s|
  {
    if |s| == 0 {
      assert s + [c] == [c] + [];
      SplitCons(c, [], sep);
    } else {
      var x, u := s[0], s[1..];
      assert s == [x] + u && s + [c] == [x] + (u + [c]);
      SplitCons(x, u, sep);
      SplitCons(x, u + [c], sep);
      SplitSnoc(u, c, sep);
      ConsSnoc(x, Split(u, sep), c, sep);
    }
  }

  /** The pieces after one more character: a new empty piece after a
      separator, the last piece longer otherwise. */
  function Snoc(l: seq<string>, c: char, sep: char): seq<string>
    requires |l| >= 1
  {
    if c == sep then l + [""] else l[..|l| - 1] + [l[|l| - 1] + [c]]
  }

  /** The pieces after one more character at the front. */
  function Cons(x: char, l: seq<string>, sep: char): seq<string>
    requires |l| >= 1
  {
    if x == sep then [""] + l else [[x] + l[0]] + l[1..]
  }

  lemma SplitCons(x: char, u: string, sep: char)
    ensures Split([x] + u, sep) == Cons(x, Split(u, sep), sep)
  {
    assert ([x] + u)[0] == x && ([x] + u)[1..] == u;
  }

  lemma ConsSnoc(x: char, l: seq<string>, c: char, sep: char)
    requires |l| >= 1
    ensures |Snoc(l, c, sep)| >= 1 && |Cons(x, l, sep)| >= 1
    ensures Cons(x, Snoc(l, c, sep), sep) == Snoc(Cons(x, l, sep), c, sep)
  {
    if x != sep && c != sep {
      var r := Snoc(l, c, sep);
      if |l| == 1 {
        assert r == [l[0] + [c]];
        assert [x] + r[0] == ([x] + l[0]) + [c];
      } else {
        assert r[0] == l[0] && r[1..] == l[1..|l| - 1] + [l[|l| - 1] + [c]];
      }
    }
  }

  /** Counting line breaks and measuring from the last one, as `positionAt`
      does, is what splitting the text before the offset gives. */
  lemma {:induction false} LinePositionIsPositionAt(s: string, offset: nat)
    requires offset <= |s|
    ensures LinePosition(s[..offset]) == PositionAt(s, offset)
    decreases offset
  {
    if offset == 0 {
      assert s[..0] == [];
    } else {
      LinePositionIsPositionAt(s, offset - 1);
      assert s[..offset] == s[..offset - 1] + [s[offset - 1]];
      SplitSnoc(s[..offset - 1], s[offset - 1], '\n');
    }
  }

  /** A path is found only if each shorter path is, at the same places: the
      search for a key never looks back before the key ahead of it. */
  lemma {:induction false} JsonPrefixFound(s: string, keys: seq<string>, k: string, from: nat)
    requires JsonMatches(s, keys + [k], from).Some?
    ensures JsonMatches(s, keys, from).Some?
    ensures JsonMatches(s, keys, from).value == JsonMatches(s, keys + [k], from).value[..|keys|]
    decreases |keys|
  {
    if keys != [] {
      var m := FindJsonKey(s, keys[0], from).value;
      assert (keys + [k])[0] == keys[0] && (keys + [k])[1..] == keys[1..] + [k];
      JsonPrefixFound(s, keys[1..], k, m.end);
    }
  }

  /** The keys of a found path are found in order, each past the colon of the one before. */
  lemma JsonKeysInOrder(s: string, keys: seq<string>, i: nat)
    requires JsonMatches(s, keys, 0).Some? && 0 < i < |keys|
    ensures var ms := JsonMatches(s, keys, 0).value;
            ms[i - 1].index < ms[i - 1].end <= ms[i].index
  {
    var ms := JsonMatches(s, keys, 0).value;
    assert Chain(s, keys, 0, ms);
    ChainAt(s, keys, 0, ms, i - 1);
    ChainAt(s, keys, 0, ms, i);
  }

  // ---- Code files: the default-exported object literal ----

  /** The object literal the walk starts from: `export default {…}`,
      `export default {…} satisfies T`, or `export default c` with `c`
      declared as one of those; nothing otherwise. */
  function RootObject(file: SourceFile): (r: Option<seq<Prop>>)
    ensures r.Some? ==> file.exportDefault.Some?
    ensures file.exportDefault.None? ==> r.None?
  {
    match file.exportDefault
    case None => None
    case Some(ObjectLit(props)) => Some(props)
    case Some(Satisfies(ObjectLit(props))) => Some(props)
    case Some(Ident(name)) =>
      (match VariableDeclaration(file.variables, name)
       case Some(VarDecl(_, Some(ObjectLit(props)))) => Some(props)
       case Some(VarDecl(_, Some(Satisfies(ObjectLit(props))))) => Some(props)
       case _ => None)
    case _ => None
  }

  /** Every way the source accepts of exporting a content object leads the
      walk to that object. */
  lemma RootForEveryExportStyle(props: seq<Prop>, file: SourceFile, name: string)
    ensures RootObject(file.(exportDefault := Some(ObjectLit(props)))) == Some(props)
    ensures RootObject(file.(exportDefault := Some(Satisfies(ObjectLit(props))))) == Some(props)
    ensures VariableDeclaration(file.variables, name) == Some(VarDecl(name, Some(ObjectLit(props)))) ==>
              RootObject(file.(exportDefault := Some(Ident(name)))) == Some(props)
    ensures VariableDeclaration(file.variables, name) == Some(VarDecl(name, Some(Satisfies(ObjectLit(props))))) ==>
              RootObject(file.(exportDefault := Some(Ident(name)))) == Some(props)
  {
  }

  /** The object literal at the walk's current node: the node itself, or the
      first argument of a call such as `t({…})`. */
  function Unwrap(e: Expr): (r: Option<seq<Prop>>)
    ensures e.ObjectLit? ==> r == Some(e.props)
    ensures r.Some? && !e.ObjectLit? ==> e.Call? && |e.args| > 0 && e.args[0] == ObjectLit(r.value)
    ensures e.Call? && |e.args| > 0 && e.args[0].ObjectLit? ==> r == Some(e.args[0].props)
  {
    match e
    case ObjectLit(props) => Some(props)
    case Call(_, args) => if |args| > 0 && args[0].ObjectLit? then Some(args[0].props) else None
    case _ => None
  }

  /** Where the walk got: no key found, the name of the last property
      assignment found, or a member without an initializer found, which the
      source rejects (by a thrown error or by its final kind test). */
  datatype Reached = NoKey | Key(name: Token) | Rejected

  /** The member a whole, non-empty key path names, each key looked up in
      the object the previous one's value is (through one call, as `t({…})`). */
  function Lookup(e: Expr, path: seq<string>): Option<Prop>
    requires |path| >= 1
    decreases |path|
  {
    match Unwrap(e)
    case None => None
    case Some(props) =>
      match GetProperty(props, path[0])
      case None => None
      case Some(p) =>
        if |path| == 1 then Some(p)
        else match p
          case Assign(_, init) => Lookup(init, path[1..])
          case OtherMember(_) => None
  }

  /** The loop of `findFieldLocation` over the key path. */
  function Descend(e: Expr, path: seq<string>): (r: Reached)
    decreases |path|
    ensures r == NoKey <==> |path| == 0 || Lookup(e, path[..1]).None?
  {
    if path == [] then NoKey
    else
      assert Lookup(e, path[..1]) == Lookup(e, [path[0]]) by { assert path[..1] == [path[0]]; }
      match Unwrap(e)
      case None => NoKey
      case Some(props) =>
        match GetProperty(props, path[0])
        case None => NoKey
        case Some(OtherMember(_)) => Rejected
        case Some(Assign(name, init)) =>
          match Descend(init, path[1..])
          case NoKey => Key(name)
          case other => other
  }

  /** `k` keys of the path lead to a property assignment named `t`, and
      either they are the whole path or the next key leads nowhere. */
  predicate Deepest(e: Expr, path: seq<string>, k: nat, t: Token)
    requires 1 <= k <= |path|
  {
    var p := Lookup(e, path[..k]);
    p.Some? && p.value.Assign? && p.value.name == t && (k == |path| || Lookup(e, path[..k + 1]).None?)
  }

  /** Looking up a longer prefix goes through the first key's value. */
  lemma LookupStep(e: Expr, path: seq<string>, k: nat, props: seq<Prop>, name: Token, init: Expr)
    requires 2 <= k <= |path|
    requires Unwrap(e) == Some(props) && GetProperty(props, path[0]) == Some(Assign(name, init))
    ensures Lookup(e, path[..k]) == Lookup(init, path[1..][..k - 1])
  {
    assert path[..k][0] == path[0] && path[..k][1..] == path[1..][..k - 1];
  }

  /** The loop stops at the deepest key of the path the file declares: it
      reports a property exactly when some prefix of the path leads to that
      property assignment and the path ends there or its next key is
      missing. */
  lemma {:induction false} DescendFindsDeepest(e: Expr, path: seq<string>, t: Token)
    ensures Descend(e, path) == Key(t) <==> exists k :: 1 <= k <= |path| && Deepest(e, path, k, t)
    decreases |path|
  {
    if path != [] {
      assert path[..1] == [path[0]];
      match Unwrap(e)
      case None => {
        forall k | 1 <= k <= |path| ensures !Deepest(e, path, k, t) {}
      }
      case Some(props) =>
        match GetProperty(props, path[0])
        case None => {
          forall k | 1 <= k <= |path| ensures !Deepest(e, path, k, t) {}
        }
        case Some(OtherMember(key)) => {
          forall k | 1 <= k <= |path| ensures !Deepest(e, path, k, t) {
            if k >= 2 {
              assert path[..k][0] == path[0];
            }
          }
        }
        case Some(Assign(name, init)) => {
          var rest := path[1..];
          assert Descend(e, path) == Key(t) <==> (Descend(init, rest) == NoKey && name == t) || Descend(init, rest) == Key(t);
          assert Deepest(e, path, 1, t) <==> Descend(init, rest) == NoKey && name == t by {
            DeepestFirst(e, path, props, name, init, t);
          }
          assert (exists k :: 2 <= k <= |path| && Deepest(e, path, k, t)) <==> Descend(init, rest) == Key(t) by {
            DescendFindsDeepest(init, rest, t);
            forall k | 2 <= k <= |path|
              ensures Deepest(e, path, k, t) <==> Deepest(init, rest, k - 1, t)
            {
              DeepestShift(e, path, props, name, init, k, t);
            }
            if Descend(init, rest) == Key(t) {
              var k' :| 1 <= k' <= |rest| && Deepest(init, rest, k', t);
              assert Deepest(e, path, k' + 1, t);
            }
          }
        }
    }
  }

  /** The first key alone is the deepest exactly when it names `t` and
      the walk below it finds no key. */
  lemma DeepestFirst(e: Expr, path: seq<string>, props: seq<Prop>, name: Token, init: Expr, t: Token)
    requires 1 <= |path|
    requires Unwrap(e) == Some(props) && GetProperty(props, path[0]) == Some(Assign(name, init))
    ensures Deepest(e, path, 1, t) <==> Descend(init, path[1..]) == NoKey && name == t
  {
    assert path[..1] == [path[0]];
    if |path| > 1 {
      LookupStep(e, path, 2, props, name, init);
    }
  }

  /** Below the first key, being the deepest is being the deepest of the
      rest of the path under the first key's value. */
  lemma DeepestShift(e: Expr, path: seq<string>, props: seq<Prop>, name: Token, init: Expr, k: nat, t: Token)
    requires 2 <= k <= |path|
    requires Unwrap(e) == Some(props) && GetProperty(props, path[0]) == Some(Assign(name, init))
    ensures Deepest(e, path, k, t) <==> Deepest(init, path[1..], k - 1, t)
  {
    LookupStep(e, path, k, props, name, init);
    if k < |path| {
      LookupStep(e, path, k + 1, props, name, init);
    }
  }

  /** A whole path the file declares, ending in a property assignment, is
      located at that assignment's name. */
  lemma WholePathLocated(e: Expr, path: seq<string>, t: Token, init: Expr)
    requires |path| >= 1 && Lookup(e, path) == Some(Assign(t, init))
    ensures Descend(e, path) == Key(t)
  {
    assert path[..|path|] == path;
    assert Deepest(e, path, |path|, t);
    DescendFindsDeepest(e, path, t);
  }

  /** The extensions searched as JSON text. */
  predicate IsJsonFile(filePath: string) {
    Paths.ExtName(filePath) in [".json", ".json5", ".jsonc"]
  }

  /** `findFieldLocation(filePath, keyPath)`: `text` is what reading the file
      gives and `file` its parse as TypeScript. The position is the key's
      zero-based line and character. */
  function FindFieldLocation(filePath: string, keyPath: seq<string>, text: Option<string>, file: SourceFile): (r: Option<Pos>)
    ensures text.None? ==> r.None?
    ensures text.Some? && IsJsonFile(filePath) ==> r == LocationInJson(text.value, keyPath)
    ensures text.Some? && !IsJsonFile(filePath) ==>
              (r.Some? <==> RootObject(file).Some? && Descend(ObjectLit(RootObject(file).value), keyPath).Key?)
              && (r.Some? ==> r.value == Descend(ObjectLit(RootObject(file).value), keyPath).name.range.start)
    ensures text.Some? && !IsJsonFile(filePath) && keyPath == [] ==> r.None?
  {
    match text
    case None => None
    case Some(s) =>
      if IsJsonFile(filePath) then LocationInJson(s, keyPath)
      else match RootObject(file)
        case None => None
        case Some(props) =>
          match Descend(ObjectLit(props), keyPath)
          case Key(t) => Some(t.range.start)
          case _ => None
  }
}
