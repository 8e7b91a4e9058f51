/** The formatter command run on a new dictionary file
    (src/detectFormatCommand.ts): the configured command when there is one,
    otherwise the first formatter package the project can resolve, probed
    once and remembered, absence included. The module-level cache is the
    three-state `Memo`; whether a package resolves is a parameter. */
module FormatCommand {
  import opened Wrappers

  /** `null` (not probed yet) or the probe's answer, `undefined` included. */
  datatype Memo = Unprobed | Probed(command: Option<string>)

  datatype Outcome = Outcome(command: Option<string>, memo: Memo)

  const PrettierCommand: string := "prettier --write \"{{file}}\" --log-level silent"
  const BiomeCommand: string := "biome format \"{{file}}\" --write --log-level none"
  const EslintCommand: string := "eslint --fix \"{{file}}\" --quiet"

  /** The formatters in the order they are probed, with the command each gives. */
  const Formatters: seq<(string, string)> :=
    [("prettier", PrettierCommand), ("biome", BiomeCommand), ("eslint", EslintCommand)]

  /** A configured command is used when it is a non-empty string. */
  predicate Configured(formatCommand: Option<string>) {
    formatCommand.Some? && formatCommand.value != ""
  }

  /** The command of a formatter the project resolves. */
  function ProbeOne(resolves: string -> bool): ((string, string)) -> Option<string> {
    (f: (string, string)) => if resolves(f.0) then Some(f.1) else None
  }

  /** The probe sequence, as the three `try` blocks run it. */
  function Probe(resolves: string -> bool): Option<string> {
    if resolves("prettier") then Some(PrettierCommand)
    else if resolves("biome") then Some(BiomeCommand)
    else if resolves("eslint") then Some(EslintCommand)
    else None
  }

  /** The three `try` blocks give the first formatter of the list that
      the project resolves. */
  lemma {:induction false} ProbeFollowsFormatters(resolves: string -> bool)
    ensures Probe(resolves) == FirstSome(Formatters, ProbeOne(resolves))
  {
    var f := ProbeOne(resolves);
    var rest1 := Formatters[1..];
    var rest2 := rest1[1..];
    assert rest1 == [("biome", BiomeCommand), ("eslint", EslintCommand)];
    assert rest2 == [("eslint", EslintCommand)] && rest2[1..] == [];
    assert f(Formatters[0]) == if resolves("prettier") then Some(PrettierCommand) else None;
    assert f(rest1[0]) == if resolves("biome") then Some(BiomeCommand) else None;
    assert f(rest2[0]) == if resolves("eslint") then Some(EslintCommand) else None;
    assert FirstSome(rest2, f) == f(rest2[0]) by {
      assert FirstSome(rest2[1..], f) == None;
    }
    assert FirstSome(rest1, f) == if f(rest1[0]).Some? then f(rest1[0]) else FirstSome(rest2, f);
  }

  /** `detectFormatCommand`: `formatCommand` is the configured value,
      `memo` the cache before the call and `resolves(p)` whether
      `projectRequire.resolve(p)` succeeds. */
  function Detect(formatCommand: Option<string>, memo: Memo, resolves: string -> bool): (r: Outcome)
    ensures Configured(formatCommand) ==> r == Outcome(formatCommand, memo)
    ensures !Configured(formatCommand) && memo.Probed? ==> r == Outcome(memo.command, memo)
    ensures !Configured(formatCommand) && memo.Unprobed? ==>
              r.command == FirstSome(Formatters, ProbeOne(resolves)) && r.memo == Probed(r.command)
  {
    if Configured(formatCommand) then Outcome(formatCommand, memo)
    else match memo
      case Probed(c) => Outcome(c, memo)
      case Unprobed =>
        ProbeFollowsFormatters(resolves);
        var c := Probe(resolves);
        Outcome(c, Probed(c))
  }

  /** Prettier wins over Biome and Biome over ESLint; nothing resolvable
      gives no command. */
  lemma ProbePriority(resolves: string -> bool)
    ensures resolves("prettier") ==> Probe(resolves) == Some(PrettierCommand)
    ensures !resolves("prettier") && resolves("biome") ==> Probe(resolves) == Some(BiomeCommand)
    ensures !resolves("prettier") && !resolves("biome") && resolves("eslint") ==> Probe(resolves) == Some(EslintCommand)
    ensures Probe(resolves).None? <==> !resolves("prettier") && !resolves("biome") && !resolves("eslint")
  {
  }

  /** After the first probe, every later call without a configured command
      answers the same, whatever the project resolves by then: the packages
      are probed at most once, and finding none is remembered too. */
  lemma {:induction false} ProbedOnce(first: string -> bool, later: string -> bool, formatCommand: Option<string>)
    requires !Configured(formatCommand)
    ensures var m := Detect(None, Unprobed, first).memo;
            Detect(formatCommand, m, later) == Outcome(Probe(first), m)
  {
    var m := Detect(None, Unprobed, first).memo;
    assert m == Probed(Probe(first));
  }

  /** A configured command never touches the memo, so configuring and then
      removing a command leaves detection as it was. */
  lemma {:induction false} ConfiguredLeavesMemo(cmd: string, memo: Memo, resolves: string -> bool)
    requires cmd != ""
    ensures Detect(Some(cmd), memo, resolves).memo == memo
    ensures Detect(None, Detect(Some(cmd), memo, resolves).memo, resolves) == Detect(None, memo, resolves)
  {
    assert Configured(Some(cmd));
  }
}
