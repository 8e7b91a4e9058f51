/** The messages the extension shows for the Intlayer CLI
    (src/utils/logFunctions.ts): the CLI's log arguments are flattened,
    joined with spaces and stripped of their terminal colour codes before
    they reach a notification. The notification and the console echo are
    not modelled. */
module LogFunctions {
  import opened Wrappers
  import opened Text

  /** The prefix of the extension's own messages. */
  const Prefix: string := "Intlayer: "

  const Esc: char := '\U{001B}'

  /** The characters of an SGR parameter list: `[0-9;]`. */
  predicate IsSgrChar(c: char) { IsDigit(c) || c == ';' }

  /** The length of the colour sequence (`ESC [ [0-9;]* m`) that starts `s`,
      if one does. The greedy run cannot be shortened to reach an `m`, since
      every shorter run is followed by a digit or `;`. */
  function SequenceAt(s: string): (n: Option<nat>)
    ensures n.Some? ==> 3 <= n.value <= |s| && s[0] == Esc && s[1] == '[' && s[n.value - 1] == 'm'
                        && forall k :: 2 <= k < n.value - 1 ==> IsSgrChar(s[k])
  {
    if |s| >= 2 && s[0] == Esc && s[1] == '[' then
      var j := RunEnd(s, 2, IsSgrChar);
      if j < |s| && s[j] == 'm' then Some(j + 1) else None
    else None
  }

  /** `text.replace(/\x1b\[[0-9;]*m/g, "")`: scanning from the left, each
      colour sequence is removed and every other character kept. */
  function StripAnsi(s: string): (r: string)
    ensures |r| <= |s|
    ensures Esc !in s ==> r == s
    ensures forall k :: 0 <= k < |r| && r[k] == Esc ==> Esc in s
    decreases |s|
  {
    if s == [] then []
    else match SequenceAt(s)
      case Some(n) => StripAnsi(s[n..])
      case None =>
        var rest := StripAnsi(s[1..]);
        assert s == [s[0]] + s[1..];
        [s[0]] + rest
  }

  /** The colour sequence with parameters `code`, as a terminal colouring
      library writes it. */
  function Sgr(code: string): string {
    [Esc, '['] + code + ['m']
  }

  predicate SgrCode(code: string) {
    forall k :: 0 <= k < |code| ==> IsSgrChar(code[k])
  }

  /** Text without escape characters passes through unchanged, and what
      follows it is stripped on its own. */
  lemma {:induction false} StripPlainPrefix(a: string, t: string)
    requires Esc !in a
    ensures StripAnsi(a + t) == a + StripAnsi(t)
  {
    if a != [] {
      var s := a + t;
      assert s[0] == a[0] && s[0] != Esc;
      assert s[1..] == a[1..] + t;
      assert SequenceAt(s).None?;
      assert StripAnsi(s) == [s[0]] + StripAnsi(s[1..]);
      StripPlainPrefix(a[1..], t);
      assert a == [a[0]] + a[1..];
    } else {
      assert a + t == t;
    }
  }

  /** A complete colour sequence is removed and the scan goes on after it. */
  lemma StripSequence(code: string, t: string)
    requires SgrCode(code)
    ensures StripAnsi(Sgr(code) + t) == StripAnsi(t)
  {
    var s := Sgr(code) + t;
    assert s[0] == Esc && s[1] == '[' && s[|code| + 2] == 'm';
    assert forall k :: 2 <= k < |code| + 2 ==> s[k] == code[k - 2];
    RunEndSkips(s, 2, |code| + 2, IsSgrChar);
    assert s[|code| + 3..] == t;
  }

  /** Coloured text loses exactly its colour codes: stripping undoes
      colouring. */
  lemma StripUndoesColour(text: string, open: string, close: string)
    requires Esc !in text && SgrCode(open) && SgrCode(close)
    ensures StripAnsi(Sgr(open) + text + Sgr(close)) == text
  {
    StripSequence(open, text + Sgr(close));
    assert Sgr(open) + text + Sgr(close) == Sgr(open) + (text + Sgr(close));
    StripPlainPrefix(text, Sgr(close));
    StripSequence(close, []);
    assert Sgr(close) + [] == Sgr(close);
  }

  /** A log argument: a string, a number, a boolean, `null`/`undefined`, or
      an array of arguments. */
  datatype Arg = Str(s: string) | Num(n: int) | Bool(b: bool) | Absent | List(items: seq<Arg>)

  /** How `Array.prototype.join` renders an element: `null`/`undefined` as
      the empty string, an array as its elements joined with commas. */
  function Render(a: Arg): (r: string)
    ensures a.Str? ==> r == a.s
    ensures a.Absent? ==> r == ""
    decreases a
  {
    match a
    case Str(s) => s
    case Num(n) => IntToString(n)
    case Bool(b) => if b then "true" else "false"
    case Absent => ""
    case List(items) => Join(RenderAll(items), ",")
  }

  function RenderAll(items: seq<Arg>): (r: seq<string>)
    ensures |r| == |items|
    ensures forall i :: 0 <= i < |items| ==> r[i] == Render(items[i])
    decreases items
  {
    if items == [] then [] else [Render(items[0])] + RenderAll(items[1..])
  }

  /** `.flat()`: one level of arrays is opened. */
  function Flat(xs: seq<Arg>): (r: seq<Arg>)
    ensures |r| >= |xs| - CountLists(xs)
    ensures forall i :: 0 <= i < |xs| && !xs[i].List? ==> xs[i] in r
    ensures forall i :: 0 <= i < |xs| && xs[i].List? ==> forall k :: 0 <= k < |xs[i].items| ==> xs[i].items[k] in r
  {
    if xs == [] then []
    else
      var rest := Flat(xs[1..]);
      assert forall i :: 1 <= i < |xs| ==> xs[i] == xs[1..][i - 1];
      (if xs[0].List? then xs[0].items else [xs[0]]) + rest
  }

  function CountLists(xs: seq<Arg>): nat {
    if xs == [] then 0 else (if xs[0].List? then 1 else 0) + CountLists(xs[1..])
  }

  /** `formatMessage(...message)`. */
  function FormatMessage(message: seq<Arg>): string {
    StripAnsi(Join(RenderAll(Flat(message)), " "))
  }

  /** The logger passes its rest-parameter array as the single argument of
      `formatMessage`, so the flattening only removes that wrapper: the text
      shown is the CLI's arguments, each rendered, joined by spaces, colour
      codes removed; an array argument shows its elements comma-separated. */
  lemma LoggedText(args: seq<Arg>)
    ensures FormatMessage([List(args)]) == StripAnsi(Join(RenderAll(args), " "))
  {
    assert Flat([List(args)]) == args + Flat([]);
    assert args + [] == args;
  }

  /** Plain strings without colour codes are shown as they are, joined by
      spaces. */
  lemma PlainStringsShownAsIs(strs: seq<string>)
    requires forall i :: 0 <= i < |strs| ==> Esc !in strs[i]
    ensures FormatMessage([List(seq(|strs|, i requires 0 <= i < |strs| => Str(strs[i])))]) == Join(strs, " ")
  {
    var args := seq(|strs|, i requires 0 <= i < |strs| => Str(strs[i]));
    LoggedText(args);
    assert RenderAll(args) == strs;
    JoinAvoids(strs, " ", Esc);
  }
}
