/** The decisions of the "transform" command
    (src/commands/transformCommand.ts): which project it works in, which
    Intlayer package the transformed code should import, read from the
    project's `package.json` dependencies, and which files are transformed.
    The transformation itself and the file search are not modelled. */
module Transform {
  import opened Wrappers
  import opened Content

  /** The project's `package.json`: missing, failing to read or parse, or
      the parsed value. */
  datatype PackageFile = Absent | Unreadable | Parsed(value: Json)

  /** `getDependencies`: the `dependencies` of the package file when they
      are truthy, `{}` otherwise, and `{}` whenever the file is missing or
      broken. */
  function Dependencies(pkg: PackageFile): (r: Json)
    ensures !pkg.Parsed? ==> r == Obj([])
    ensures pkg.Parsed? && Truthy(Member(pkg.value, "dependencies")) ==> r == Member(pkg.value, "dependencies")
    ensures pkg.Parsed? && !Truthy(Member(pkg.value, "dependencies")) ==> r == Obj([])
    ensures Truthy(r)
  {
    match pkg
    case Parsed(v) =>
      var deps := Member(v, "dependencies");
      if Truthy(deps) then deps else Obj([])
    case _ => Obj([])
  }

  const DefaultPackage: string := "react-intlayer"

  /** The framework packages, from the highest priority to the lowest. */
  const Frameworks: seq<string> := ["next-intlayer", "vue-intlayer", "svelte-intlayer", "react-intlayer",
                                    "preact-intlayer", "solid-intlayer", "angular-intlayer", "express-intlayer"]

  /** `dependencies[name]` is truthy. */
  predicate Declares(deps: Json, name: string) {
    Truthy(Member(deps, name))
  }

  /** The chain of `else if` tests choosing the package. */
  function DetectPackage(deps: Json): (r: string)
    ensures r in Frameworks
    ensures r != DefaultPackage ==> Declares(deps, r)
  {
    if Declares(deps, "next-intlayer") then "next-intlayer"
    else if Declares(deps, "vue-intlayer") then "vue-intlayer"
    else if Declares(deps, "svelte-intlayer") then "svelte-intlayer"
    else if Declares(deps, "react-intlayer") then "react-intlayer"
    else if Declares(deps, "preact-intlayer") then "preact-intlayer"
    else if Declares(deps, "solid-intlayer") then "solid-intlayer"
    else if Declares(deps, "angular-intlayer") then "angular-intlayer"
    else if Declares(deps, "express-intlayer") then "express-intlayer"
    else DefaultPackage
  }

  /** The first of `names` the dependencies declare. */
  function FirstDeclared(deps: Json, names: seq<string>): Option<string> {
    if names == [] then None
    else if Declares(deps, names[0]) then Some(names[0])
    else FirstDeclared(deps, names[1..])
  }

  /** `FirstDeclared` finds the first declared name, and nothing when none
      is declared. */
  lemma {:induction false} FirstDeclaredIsFirst(deps: Json, names: seq<string>)
    ensures var r := FirstDeclared(deps, names);
            && (r.Some? ==> exists i :: 0 <= i < |names| && names[i] == r.value && Declares(deps, names[i])
                                        && forall j :: 0 <= j < i ==> !Declares(deps, names[j]))
            && (r.None? ==> forall j :: 0 <= j < |names| ==> !Declares(deps, names[j]))
  {
    if names != [] && !Declares(deps, names[0]) {
      FirstDeclaredIsFirst(deps, names[1..]);
      assert forall j :: 1 <= j < |names| ==> names[j] == names[1..][j - 1];
      var r := FirstDeclared(deps, names);
      if r.Some? {
        var i :| 0 <= i < |names[1..]| && names[1..][i] == r.value && Declares(deps, names[1..][i])
                 && forall j :: 0 <= j < i ==> !Declares(deps, names[1..][j]);
        assert names[i + 1] == r.value;
      }
    }
  }

  /** The chosen package is the first framework package, by priority, that
      the project declares, and `react-intlayer` when it declares none. */
  lemma PackageByPriority(deps: Json)
    ensures DetectPackage(deps) == FirstDeclared(deps, Frameworks).GetOr(DefaultPackage)
  {
    var n := Frameworks;
    ChainOfEight(deps, n[0], n[1], n[2], n[3], n[4], n[5], n[6], n[7]);
    assert n == [n[0], n[1], n[2], n[3], n[4], n[5], n[6], n[7]];
  }

  /** `FirstDeclared` over eight names, spelled out as a chain of tests. */
  lemma ChainOfEight(deps: Json, a: string, b: string, c: string, d: string, e: string, f: string, g: string, h: string)
    ensures FirstDeclared(deps, [a, b, c, d, e, f, g, h]) ==
            if Declares(deps, a) then Some(a) else if Declares(deps, b) then Some(b)
            else if Declares(deps, c) then Some(c) else if Declares(deps, d) then Some(d)
            else if Declares(deps, e) then Some(e) else if Declares(deps, f) then Some(f)
            else if Declares(deps, g) then Some(g) else if Declares(deps, h) then Some(h) else None
  {
    var s6 := [g, h];
    var s4 := [e, f] + s6;
    var s2 := [c, d] + s4;
    var s0 := [a, b] + s2;
    assert s0 == [a, b, c, d, e, f, g, h];
    ChainOfTwo(deps, g, h, []);
    assert [g, h] + [] == s6;
    ChainOfTwo(deps, e, f, s6);
    ChainOfTwo(deps, c, d, s4);
    ChainOfTwo(deps, a, b, s2);
  }

  /** Two tests in front of the rest of the names. */
  lemma ChainOfTwo(deps: Json, a: string, b: string, rest: seq<string>)
    ensures FirstDeclared(deps, [a, b] + rest) ==
            if Declares(deps, a) then Some(a) else if Declares(deps, b) then Some(b) else FirstDeclared(deps, rest)
  {
    var r1 := [b] + rest;
    assert ([a, b] + rest)[1..] == r1;
    assert r1[1..] == rest;
  }

  /** A project without a usable `package.json` gets `react-intlayer`. */
  lemma BrokenPackageFileGivesDefault(pkg: PackageFile)
    requires !pkg.Parsed?
    ensures DetectPackage(Dependencies(pkg)) == DefaultPackage
  {
  }

  /** The project: the one found for the resource, else the only workspace
      folder; `None` (an error message) otherwise. */
  function ProjectDir(found: Option<string>, workspaceFolders: seq<string>): (r: Option<string>)
    ensures found.Some? && found.value != "" ==> r == found
    ensures !(found.Some? && found.value != "") ==> (r.Some? <==> |workspaceFolders| == 1)
    ensures r.Some? && !(found.Some? && found.value != "") ==> r.value == workspaceFolders[0]
  {
    if found.Some? && found.value != "" then found
    else if |workspaceFolders| == 1 then Some(workspaceFolders[0])
    else None
  }

  /** The files transformed: exactly the resource when one is given;
      otherwise the non-empty paths of the found files the user selects
      (`selection` holds their indices, `None` when the pick is dismissed).
      `None` means nothing is transformed. */
  function FilesToTransform(resource: Option<string>, found: seq<string>, selection: Option<seq<nat>>): (r: Option<seq<string>>)
    ensures resource.Some? ==> r == Some([resource.value])
    ensures r.Some? ==> r.value != []
    ensures resource.None? && r.Some? ==> forall i :: 0 <= i < |r.value| ==> r.value[i] in found && r.value[i] != ""
    ensures resource.None? && found == [] ==> r.None?
    ensures resource.None? && selection.None? ==> r.None?
    ensures resource.None? && found != [] && selection.Some? ==>
              r == (if Picked(found, selection.value) == [] then None else Some(Picked(found, selection.value)))
  {
    match resource
    case Some(p) => Some([p])
    case None =>
      if found == [] then None
      else match selection
        case None => None
        case Some(picked) =>
          var files := Picked(found, picked);
          if files == [] then None else Some(files)
  }

  /** `x` is the non-empty path of an item the user picked. */
  predicate Selected(found: seq<string>, picked: seq<nat>, x: string) {
    exists k :: 0 <= k < |picked| && picked[k] < |found| && found[picked[k]] == x && x != ""
  }

  /** With no resource and something found, the files transformed are
      exactly the selected ones; a pick of nothing transforms nothing. */
  lemma TransformsExactlySelected(found: seq<string>, picked: seq<nat>)
    requires found != []
    ensures var r := FilesToTransform(None, found, Some(picked));
            forall x :: (r.Some? && x in r.value) <==> Selected(found, picked, x)
  {
    forall x
      ensures x in Picked(found, picked) <==> Selected(found, picked, x)
    {
      PickedIsSelected(found, picked, x);
    }
  }

  lemma {:induction false} PickedIsSelected(found: seq<string>, picked: seq<nat>, x: string)
    ensures x in Picked(found, picked) <==> Selected(found, picked, x)
  {
    if picked != [] {
      PickedIsSelected(found, picked[1..], x);
      if Selected(found, picked[1..], x) {
        var k :| 0 <= k < |picked[1..]| && picked[1..][k] < |found| && found[picked[1..][k]] == x && x != "";
        assert picked[k + 1] == picked[1..][k];
      }
      if Selected(found, picked, x) {
        var k :| 0 <= k < |picked| && picked[k] < |found| && found[picked[k]] == x && x != "";
        if k > 0 {
          assert picked[1..][k - 1] == picked[k];
        }
      }
    }
  }

  /** The paths of the picked items, leaving out empty ones. */
  function Picked(found: seq<string>, picked: seq<nat>): (r: seq<string>)
    ensures forall i :: 0 <= i < |r| ==> r[i] in found && r[i] != ""
    ensures forall k :: 0 <= k < |picked| && picked[k] < |found| && found[picked[k]] != "" ==> found[picked[k]] in r
    ensures |r| <= |picked|
  {
    if picked == [] then []
    else
      var rest := Picked(found, picked[1..]);
      assert forall k :: 1 <= k < |picked| ==> picked[k] == picked[1..][k - 1];
      if picked[0] < |found| && found[picked[0]] != "" then [found[picked[0]]] + rest else rest
  }
}
