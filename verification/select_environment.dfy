/** The "select environment" command (src/commands/selectEnvironment.ts):
    the environment names a project's `.env.*` files declare, the list of
    environments offered (the well-known ones first), which one is marked
    current, and the order in which projects are offered. The quick picks
    are the user's choice and are parameters. */
module SelectEnvironment {
  import opened Wrappers
  import opened Text
  import Lists
  import Paths

  const WellKnown: seq<string> := ["production", "development", "test"]

  const EnvPrefix: string := ".env."
  const LocalSuffix: string := ".local"

  /** The environment name one directory entry declares, if any: the part
      after `.env.` with one trailing `.local` removed, unless that leaves
      nothing or `local`. */
  function EnvNameOf(file: string): (r: Option<string>)
    ensures r.Some? ==> StartsWith(file, EnvPrefix) && r.value != "" && r.value != "local"
    ensures r.Some? ==> file == EnvPrefix + r.value || file == EnvPrefix + r.value + LocalSuffix
  {
    if !StartsWith(file, EnvPrefix) then None
    else
      var rest := file[|EnvPrefix|..];
      assert file == EnvPrefix + rest;
      var name := if EndsWith(rest, LocalSuffix) then rest[..|rest| - |LocalSuffix|] else rest;
      assert EndsWith(rest, LocalSuffix) ==> rest == name + LocalSuffix;
      if name != "" && name != "local" then Some(name) else None
  }

  /** The names added to the set, in directory order (duplicates included). */
  function Declared(files: seq<string>): (r: seq<string>)
    ensures forall x :: x in r <==> exists i :: 0 <= i < |files| && EnvNameOf(files[i]) == Some(x)
  {
    if files == [] then []
    else
      var rest := Declared(files[1..]);
      assert forall i :: 1 <= i < |files| ==> files[i] == files[1..][i - 1];
      assert forall i :: 0 <= i < |files| - 1 ==> files[1..][i] == files[i + 1];
      match EnvNameOf(files[0])
      case Some(n) => [n] + rest
      case None => rest
  }

  /** `discoverEnvNames`: `listing` is what `readdirSync` gives, `None`
      when it throws. The names are distinct, non-empty and never `local`. */
  function DiscoverEnvNames(listing: Option<seq<string>>): (r: seq<string>)
    ensures listing.None? ==> r == []
    ensures listing.Some? ==> forall x :: x in r <==> exists i :: 0 <= i < |listing.value| && EnvNameOf(listing.value[i]) == Some(x)
    ensures Lists.Distinct(r)
    ensures forall i :: 0 <= i < |r| ==> r[i] != "" && r[i] != "local"
  {
    match listing
    case None => []
    case Some(files) =>
      var r := Lists.Dedupe(Declared(files));
      assert forall i :: 0 <= i < |r| ==> r[i] in Declared(files);
      r
  }

  predicate NonEmpty(s: string) { s != "" }

  /** The options offered: `Array.from(new Set([...WellKnown, ...discovered]))`
      without empty names. */
  function OptionNames(discovered: seq<string>): seq<string> {
    Lists.Filter(Lists.Dedupe(WellKnown + discovered), NonEmpty)
  }

  /** Names in `a` that are not already in `b`, in order. */
  function NotIn(b: seq<string>): string -> bool {
    x => x !in b
  }

  /** Removing duplicates from a distinct list followed by another distinct
      list keeps the first and adds the new names of the second in order. */
  lemma {:induction false} DedupeDistinctAppend(a: seq<string>, b: seq<string>)
    requires Lists.Distinct(a) && Lists.Distinct(b)
    ensures Lists.Dedupe(a + b) == a + Lists.Filter(b, NotIn(a))
    decreases |b|
  {
    if b == [] {
      assert a + b == a;
      DedupeDistinct(a);
    } else {
      var init := b[..|b| - 1];
      var x := b[|b| - 1];
      DistinctSnoc(b);
      DedupeDistinctAppend(a, init);
      assert b == init + [x];
      AppendNewStep(a, init, x);
    }
  }

  /** Dropping the last element of a distinct list keeps it distinct, and
      the element dropped occurs nowhere before. */
  lemma DistinctSnoc(b: seq<string>)
    requires b != [] && Lists.Distinct(b)
    ensures Lists.Distinct(b[..|b| - 1]) && b[|b| - 1] !in b[..|b| - 1]
  {
    var init := b[..|b| - 1];
    forall k | 0 <= k < |init| ensures init[k] != b[|b| - 1] {
      assert init[k] == b[k];
    }
  }

  /** One step of `DedupeDistinctAppend`. */
  lemma AppendNewStep(a: seq<string>, init: seq<string>, x: string)
    requires x !in init
    requires Lists.Dedupe(a + init) == a + Lists.Filter(init, NotIn(a))
    ensures Lists.Dedupe(a + (init + [x])) == a + Lists.Filter(init + [x], NotIn(a))
  {
    var d := Lists.Dedupe(a + init);
    var f := Lists.Filter(init, NotIn(a));
    var fx := Lists.Filter([x], NotIn(a));
    assert a + (init + [x]) == (a + init) + [x];
    Lists.DedupeSnocStep(a + init, x);
    InAppend(a, init, x);
    assert Lists.Dedupe(a + (init + [x])) == if x in a then d else d + [x];
    Lists.FilterAppend(init, [x], NotIn(a));
    FilterSingle(a, x);
    AppendCases(Lists.Dedupe(a + (init + [x])), a, f, fx, Lists.Filter(init + [x], NotIn(a)), x, x in a);
  }

  /** The sequence algebra of `AppendNewStep`, on plain sequences. */
  lemma AppendCases(dx: seq<string>, a: seq<string>, f: seq<string>, fx: seq<string>, fall: seq<string>, x: string, inA: bool)
    requires dx == if inA then a + f else (a + f) + [x]
    requires fall == f + fx
    requires fx == if inA then [] else [x]
    ensures dx == a + fall
  {
    if inA {
      assert f + fx == f;
    } else {
      assert (a + f) + [x] == a + (f + [x]);
    }
  }

  lemma InAppend(a: seq<string>, init: seq<string>, x: string)
    requires x !in init
    ensures x in a + init <==> x in a
  {
  }

  lemma FilterSingle(a: seq<string>, x: string)
    ensures Lists.Filter([x], NotIn(a)) == if x in a then [] else [x]
  {
    assert [x][1..] == [];
  }

  lemma {:induction false} DedupeDistinct(a: seq<string>)
    requires Lists.Distinct(a)
    ensures Lists.Dedupe(a) == a
    decreases |a|
  {
    if a != [] {
      var init := a[..|a| - 1];
      assert Lists.Distinct(init);
      DedupeDistinct(init);
      assert a[|a| - 1] !in init;
    }
  }

  /** The offered environments are the well-known three, in order, then
      every discovered name not among them, in discovery order. */
  lemma OptionsWellKnownFirst(listing: Option<seq<string>>)
    ensures var d := DiscoverEnvNames(listing);
            OptionNames(d) == WellKnown + Lists.Filter(d, NotIn(WellKnown))
  {
    WellKnownDistinct();
    PrependedFirst(WellKnown, DiscoverEnvNames(listing));
  }

  lemma WellKnownDistinct()
    ensures Lists.Distinct(WellKnown) && forall i :: 0 <= i < |WellKnown| ==> WellKnown[i] != ""
  {
    var w := WellKnown;
    assert w[0][0] == 'p' && w[1][0] == 'd' && w[2][0] == 't';
  }

  /** `new Set([...first, ...later])` without empty names, for distinct
      non-empty lists. */
  lemma PrependedFirst(first: seq<string>, later: seq<string>)
    requires Lists.Distinct(first) && Lists.Distinct(later)
    requires forall i :: 0 <= i < |first| ==> first[i] != ""
    requires forall i :: 0 <= i < |later| ==> later[i] != ""
    ensures Lists.Filter(Lists.Dedupe(first + later), NonEmpty) == first + Lists.Filter(later, NotIn(first))
  {
    DedupeDistinctAppend(first, later);
    var added := Lists.Filter(later, NotIn(first));
    var all := first + added;
    forall i | 0 <= i < |all| ensures NonEmpty(all[i]) {
      if i >= |first| {
        assert all[i] == added[i - |first|] && all[i] in added;
      }
    }
    Lists.FilterKeepsAll(all, NonEmpty);
  }

  /** A quick-pick entry; `current` is the `"current"` description. */
  datatype EnvOption = EnvOption(name: string, current: bool)

  /** The entries, with the one equal to the stored environment marked. */
  function EnvOptions(discovered: seq<string>, existing: Option<string>): (r: seq<EnvOption>)
    ensures |r| == |OptionNames(discovered)|
    ensures forall i :: 0 <= i < |r| ==> r[i].name == OptionNames(discovered)[i]
    ensures forall i :: 0 <= i < |r| ==> (r[i].current <==> existing == Some(r[i].name))
  {
    var names := OptionNames(discovered);
    seq(|names|, i requires 0 <= i < |names| => EnvOption(names[i], existing == Some(names[i])))
  }

  /** At most one entry is marked current: the names are distinct. */
  lemma AtMostOneCurrent(discovered: seq<string>, existing: Option<string>, i: nat, j: nat)
    requires i < j < |EnvOptions(discovered, existing)|
    ensures !(EnvOptions(discovered, existing)[i].current && EnvOptions(discovered, existing)[j].current)
  {
    var names := OptionNames(discovered);
    var all := Lists.Dedupe(WellKnown + discovered);
    FilterOfDistinct(all, NonEmpty);
    assert names[i] != names[j];
  }

  lemma {:induction false} FilterOfDistinct(xs: seq<string>, p: string -> bool)
    requires Lists.Distinct(xs)
    ensures Lists.Distinct(Lists.Filter(xs, p))
  {
    if xs != [] {
      assert Lists.Distinct(xs[1..]);
      FilterOfDistinct(xs[1..], p);
      assert xs[0] !in xs[1..];
    }
  }

  /** The projects in the order offered: the current project first, then
      every other root in its order. */
  function OrderedRoots(roots: seq<string>, current: Option<string>): (r: seq<string>)
    ensures current.Some? && current.value != "" ==>
              |r| >= 1 && r[0] == current.value && r[1..] == Lists.Filter(roots, NotIn([current.value]))
              && current.value !in r[1..]
    ensures !(current.Some? && current.value != "") ==> r == roots
  {
    if current.Some? && current.value != "" then [current.value] + Lists.Filter(roots, NotIn([current.value]))
    else roots
  }

  /** Reordering a list of distinct roots that holds the current one
      loses none and repeats none. */
  lemma OrderedRootsPermutes(roots: seq<string>, c: string)
    requires c != "" && c in roots && Lists.Distinct(roots)
    ensures multiset(OrderedRoots(roots, Some(c))) == multiset(roots)
  {
    RemoveOnce(roots, c);
    assert OrderedRoots(roots, Some(c)) == [c] + Lists.Filter(roots, NotIn([c]));
  }

  /** Filtering out the one occurrence of `c` removes exactly it. */
  lemma {:induction false} RemoveOnce(xs: seq<string>, c: string)
    requires c in xs && Lists.Distinct(xs)
    ensures multiset(Lists.Filter(xs, NotIn([c]))) + multiset{c} == multiset(xs)
  {
    var p := NotIn([c]);
    var t := xs[1..];
    assert xs == [xs[0]] + t;
    assert multiset(xs) == multiset{xs[0]} + multiset(t);
    if xs[0] == c {
      assert Lists.Filter(xs, p) == t by {
        assert c !in t;
        assert forall i :: 0 <= i < |t| ==> p(t[i]);
        Lists.FilterKeepsAll(t, p);
      }
    } else {
      var r := Lists.Filter(t, p);
      assert Lists.Filter(xs, p) == [xs[0]] + r;
      assert multiset([xs[0]] + r) == multiset{xs[0]} + multiset(r);
      assert multiset(r) + multiset{c} == multiset(t) by {
        assert Lists.Distinct(t);
        RemoveOnce(t, c);
      }
    }
  }

  // ---- Choosing the project ----

  /** What the command does before the environment list: go on with a
      project directory, or stop after the "no projects" warning. */
  datatype ProjectChoice = UseProject(dir: string) | NoProjectsWarning | Cancelled

  /** As written: `findAllProjectRoots()` is not awaited, so `roots` is a
      promise whose `length` is undefined, and without a project from the
      context the command always stops at the warning. */
  function ChooseProjectAsWritten(fromContext: Option<string>, roots: seq<string>, picked: Option<nat>): (r: ProjectChoice)
    ensures fromContext.Some? && fromContext.value != "" ==> r == UseProject(fromContext.value)
  {
    if fromContext.Some? && fromContext.value != "" then UseProject(fromContext.value)
    else NoProjectsWarning
  }

  /** However many projects the workspace holds, the list is never offered. */
  lemma ProjectListNeverOffered(roots: seq<string>, picked: Option<nat>)
    requires |roots| > 0 && picked.Some? && picked.value < |roots|
    ensures ChooseProjectAsWritten(None, roots, picked) == NoProjectsWarning
  {
  }

  /** The label of a project entry as written: the path relative to the
      workspace root, `"."` only if `relative` returned nothing, which it
      never does, so the workspace root itself gets an empty label. */
  function ProjectLabelAsWritten(workspaceRoot: Option<string>, absPath: string): (r: string)
    ensures workspaceRoot.None? ==> r == absPath
  {
    if workspaceRoot.Some? then Paths.Relative(workspaceRoot.value, absPath) else absPath
  }

  lemma RootLabelEmpty(workspaceRoot: string)
    ensures ProjectLabelAsWritten(Some(workspaceRoot), workspaceRoot) == ""
  {
    var f := Paths.Segments(workspaceRoot);
    Paths.CommonPrefixOfExtension(f, []);
    assert f + [] == f;
    assert f[|f|..] == [];
  }

  /** The label with `"."` for the workspace root itself: never empty for
      a non-empty path. */
  function ProjectLabel(workspaceRoot: Option<string>, absPath: string): (r: string)
    ensures absPath != "" ==> r != ""
    ensures r == ProjectLabelAsWritten(workspaceRoot, absPath) || (ProjectLabelAsWritten(workspaceRoot, absPath) == "" && r == ".")
  {
    var rel := ProjectLabelAsWritten(workspaceRoot, absPath);
    if rel == "" then "." else rel
  }

  /** The intended choice, with the roots awaited: a warning when there are
      none, otherwise the entry the user picks among the ordered roots
      (`picked` is its index, `None` when the pick is dismissed). */
  function ChooseProject(fromContext: Option<string>, roots: seq<string>, current: Option<string>, picked: Option<nat>): (r: ProjectChoice)
    ensures fromContext.Some? && fromContext.value != "" ==> r == UseProject(fromContext.value)
    ensures !(fromContext.Some? && fromContext.value != "") ==>
              (roots == [] <==> r == NoProjectsWarning)
              && (r.UseProject? ==> r.dir in OrderedRoots(roots, current))
  {
    if fromContext.Some? && fromContext.value != "" then UseProject(fromContext.value)
    else if roots == [] then NoProjectsWarning
    else
      var ordered := OrderedRoots(roots, current);
      if picked.Some? && picked.value < |ordered| then UseProject(ordered[picked.value]) else Cancelled
  }

  /** With the roots awaited, a workspace with projects offers them, the
      current one first. */
  lemma AwaitedRootsOffered(roots: seq<string>, current: string)
    requires |roots| > 0 && current != ""
    ensures ChooseProject(None, roots, Some(current), Some(0)) == UseProject(current)
  {
  }
}
