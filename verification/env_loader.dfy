/** Loading a project's `.env` file into the process environment
    (src/utils/loadEnvFromWorkspace.ts): the candidate files are tried from
    the most specific to the most generic, the first one that can be read
    and parsed wins, and its variables are added without overwriting any
    variable already set. Reading and parsing a file is a parameter; the
    information message is not modelled. */
module EnvLoader {
  import opened Wrappers
  import Paths

  /** The variables of a parsed file, as `Object.entries` lists them. */
  type Entries = seq<(string, string)>

  /** The names of the variables a file defines. */
  function Names(entries: Entries): set<string> {
    set i | 0 <= i < |entries| :: entries[i].0
  }

  /** The candidate file names: `.env.<env>.local` and `.env.<env>` when an
      environment is given, then `.env.local` and `.env`. */
  function Candidates(env: Option<string>): (r: seq<string>)
    ensures |r| >= 2 && r[|r| - 2..] == [".env.local", ".env"]
    ensures env.Some? && env.value != "" ==> |r| == 4 && r[0] == r[1] + ".local" && r[1] == ".env." + env.value
    ensures !(env.Some? && env.value != "") ==> |r| == 2
  {
    (if env.Some? && env.value != "" then [".env." + env.value + ".local", ".env." + env.value] else [])
    + [".env.local", ".env"]
  }

  /** The loop over the parsed variables: a variable is set only when the
      environment does not define it yet. */
  function Merge(processEnv: map<string, string>, entries: Entries): (r: map<string, string>)
    ensures forall k :: k in processEnv ==> k in r && r[k] == processEnv[k]
    ensures r.Keys == processEnv.Keys + Names(entries)
    decreases |entries|
  {
    if entries == [] then processEnv
    else
      var (k, v) := entries[0];
      var next := if k in processEnv then processEnv else processEnv[k := v];
      assert Names(entries) == {k} + Names(entries[1..]) by {
        NamesOfTail(entries);
      }
      Merge(next, entries[1..])
  }

  lemma NamesOfTail(entries: Entries)
    requires entries != []
    ensures Names(entries) == {entries[0].0} + Names(entries[1..])
  {
    assert forall i :: 1 <= i < |entries| ==> entries[i] == entries[1..][i - 1];
    assert forall i :: 0 <= i < |entries[1..]| ==> entries[1..][i] == entries[i + 1];
  }

  /** A variable the environment lacks takes the value of its first
      occurrence in the file. */
  lemma {:induction false} FirstOccurrenceWins(processEnv: map<string, string>, entries: Entries, i: nat)
    requires i < |entries| && entries[i].0 !in processEnv
    requires forall j :: 0 <= j < i ==> entries[j].0 != entries[i].0
    ensures Merge(processEnv, entries)[entries[i].0] == entries[i].1
    decreases i
  {
    var (k, v) := entries[0];
    var next := if k in processEnv then processEnv else processEnv[k := v];
    assert Merge(processEnv, entries) == Merge(next, entries[1..]);
    if i > 0 {
      assert entries[1..][i - 1] == entries[i];
      assert entries[i].0 !in next;
      assert forall j :: 0 <= j < i - 1 ==> entries[1..][j].0 != entries[i].0 by {
        assert forall j :: 0 <= j < i - 1 ==> entries[1..][j] == entries[j + 1];
      }
      FirstOccurrenceWins(next, entries[1..], i - 1);
    }
  }

  /** What the loader does: the parsed variables of the file that won (or
      `None`), the environment afterwards, or the error thrown when no
      workspace is open. */
  datatype Loaded = Loaded(parsed: Option<Entries>, processEnv: map<string, string>)

  /** The candidates in order, stopping at the first that reads and parses. */
  function FirstReadable(baseDir: string, candidates: seq<string>, read: string -> Option<Entries>): (r: Option<Entries>)
    ensures r.Some? ==> exists i :: 0 <= i < |candidates| && read(Paths.Join(baseDir, candidates[i])) == r
                                    && forall j :: 0 <= j < i ==> read(Paths.Join(baseDir, candidates[j])).None?
    ensures r.None? ==> forall j :: 0 <= j < |candidates| ==> read(Paths.Join(baseDir, candidates[j])).None?
  {
    if candidates == [] then None
    else
      var here := read(Paths.Join(baseDir, candidates[0]));
      if here.Some? then here
      else
        assert forall j :: 1 <= j < |candidates| ==> candidates[j] == candidates[1..][j - 1];
        FirstReadable(baseDir, candidates[1..], read)
  }

  /** `loadEnvFromWorkspace(baseDir, env)`: `workspaceFolders` is the
      number of open workspace folders and `read(p)` the parsed variables of
      the file at `p`, `None` when reading or parsing throws. */
  function LoadEnv(workspaceFolders: nat, baseDir: string, env: Option<string>, read: string -> Option<Entries>,
                   processEnv: map<string, string>): (r: Result<Loaded>)
    ensures r.Failure? <==> workspaceFolders == 0
    ensures r.Success? ==> r.value.parsed == FirstReadable(baseDir, Candidates(env), read)
    ensures r.Success? && r.value.parsed.None? ==> r.value.processEnv == processEnv
    ensures r.Success? && r.value.parsed.Some? ==> r.value.processEnv == Merge(processEnv, r.value.parsed.value)
  {
    if workspaceFolders == 0 then Failure("No workspace is open.")
    else
      match FirstReadable(baseDir, Candidates(env), read)
      case None => Success(Loaded(None, processEnv))
      case Some(entries) => Success(Loaded(Some(entries), Merge(processEnv, entries)))
  }

  /** Candidates after the first readable one are never consulted: two
      file systems that agree up to it give the same result. */
  lemma {:induction false} LaterCandidatesIgnored(baseDir: string, candidates: seq<string>, read1: string -> Option<Entries>,
                                                  read2: string -> Option<Entries>, k: nat)
    requires k < |candidates| && read1(Paths.Join(baseDir, candidates[k])).Some?
    requires forall j :: 0 <= j <= k ==> read1(Paths.Join(baseDir, candidates[j])) == read2(Paths.Join(baseDir, candidates[j]))
    ensures FirstReadable(baseDir, candidates, read1) == FirstReadable(baseDir, candidates, read2)
    decreases k
  {
    if read1(Paths.Join(baseDir, candidates[0])).None? {
      assert k > 0;
      assert forall j :: 0 <= j < |candidates| - 1 ==> candidates[1..][j] == candidates[j + 1];
      LaterCandidatesIgnored(baseDir, candidates[1..], read1, read2, k - 1);
    }
  }

  /** A variable already in the environment keeps its value whatever the
      files say; one a file introduces is set. */
  lemma ExistingVariablesWin(workspaceFolders: nat, baseDir: string, env: Option<string>, read: string -> Option<Entries>,
                             processEnv: map<string, string>, name: string)
    requires workspaceFolders > 0
    ensures var r := LoadEnv(workspaceFolders, baseDir, env, read, processEnv).value;
            (name in processEnv ==> name in r.processEnv && r.processEnv[name] == processEnv[name])
            && (name in r.processEnv && name !in processEnv ==> r.parsed.Some? && name in Names(r.parsed.value))
  {
  }

  /** With an environment named, its local file wins over every generic
      one whenever it can be read. */
  lemma {:induction false} EnvLocalFileFirst(baseDir: string, env: string, read: string -> Option<Entries>,
                                             processEnv: map<string, string>, workspaceFolders: nat)
    requires env != "" && workspaceFolders > 0
    requires read(Paths.Join(baseDir, ".env." + env + ".local")).Some?
    ensures LoadEnv(workspaceFolders, baseDir, Some(env), read, processEnv).value.parsed
            == read(Paths.Join(baseDir, ".env." + env + ".local"))
  {
    assert Candidates(Some(env))[0] == ".env." + env + ".local";
  }
}
