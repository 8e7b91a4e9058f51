/** The offset-preserving script normaliser for `.vue` and `.svelte` files
    (src/utils/extractScript.ts): tags, Vue double braces and Svelte block
    directives are rewritten so that the text parses as TSX, and every
    rewrite has exactly the length of what it replaces. */
module ExtractScript {
  import opened Text
  import opened Wrappers

  /** One global regular-expression replacement of the normaliser. */
  datatype Rule =
    | ScriptTags         // /(<script\b[^>]*>)|(<\/script>)/gi      -> spaces
    | TemplateStyleTags  // /(<\/?(?:template|style)\b[^>]*>)/gi  -> spaces
    | VueOpen            // /{{/g                                  -> " {"
    | VueClose           // /}}/g                                  -> "} "
    | SvelteBlocks       // /\{[#/:@][a-z0-9]*/gi                   -> spaces

  function Spaces(n: nat): (r: string)
    ensures |r| == n && forall k :: 0 <= k < n ==> r[k] == ' '
  {
    if n == 0 then "" else [' '] + Spaces(n - 1)
  }

  /** Case-insensitive occurrence of the lower-case ASCII word `p` at `i`. */
  predicate AtNoCase(s: string, i: nat, p: string) {
    i + |p| <= |s| && Lower(s[i..i + |p|]) == p
  }

  /** `\b` right after a word character: end of text or a non-word character. */
  predicate BoundaryAt(s: string, k: nat) {
    k >= |s| || !IsWordChar(s[k])
  }

  /** Length from `i` through the first `>` at or after `from` (`[^>]*>`), or 0. */
  function ThroughTagEnd(s: string, i: nat, from: nat): (n: nat)
    requires i <= from
    ensures n == 0 || (from + 1 - i <= n && i + n <= |s| && s[i + n - 1] == '>')
  {
    match IndexOf(s, ">", from)
    case Some(j) => j + 1 - i
    case None => 0
  }

  /** Length of the match of `/(<script\b[^>]*>)|(<\/script>)/i` at `i`. */
  function ScriptTagLength(s: string, i: nat): (n: nat)
    requires i <= |s|
    ensures i + n <= |s|
  {
    var open := if AtNoCase(s, i, "<script") && BoundaryAt(s, i + 7) then ThroughTagEnd(s, i, i + 7) else 0;
    if open > 0 then open
    else if AtNoCase(s, i, "</script>") then 9
    else 0
  }

  /** Length of the match of `/<\/?(?:template|style)\b[^>]*>/i` at `i`. */
  function TemplateStyleTagLength(s: string, i: nat): (n: nat)
    requires i <= |s|
    ensures i + n <= |s|
  {
    if i < |s| && s[i] == '<' then
      var k := if i + 1 < |s| && s[i + 1] == '/' then i + 2 else i + 1;
      var w := if AtNoCase(s, k, "template") then 8 else if AtNoCase(s, k, "style") then 5 else 0;
      if w > 0 && BoundaryAt(s, k + w) then ThroughTagEnd(s, i, k + w) else 0
    else 0
  }

  /** Number of ASCII letters and digits starting at `k` (`[a-z0-9]*` with the `i` flag). */
  function AlnumRun(s: string, k: nat): (n: nat)
    requires k <= |s|
    decreases |s| - k
    ensures k + n <= |s|
    ensures forall j :: k <= j < k + n ==> IsAsciiLetter(s[j]) || IsDigit(s[j])
    ensures k + n < |s| ==> !(IsAsciiLetter(s[k + n]) || IsDigit(s[k + n]))
  {
    if k < |s| && (IsAsciiLetter(s[k]) || IsDigit(s[k])) then 1 + AlnumRun(s, k + 1) else 0
  }

  /** Length of the match of `rule` at index `i` of `s` (0 when it does not match there). */
  function MatchLength(rule: Rule, s: string, i: nat): (n: nat)
    requires i <= |s|
    ensures i + n <= |s|
    ensures rule.VueOpen? && n > 0 ==> n == 2 && s[i] == '{' && s[i + 1] == '{'
    ensures rule.VueClose? && n > 0 ==> n == 2 && s[i] == '}' && s[i + 1] == '}'
  {
    match rule
    case ScriptTags => ScriptTagLength(s, i)
    case TemplateStyleTags => TemplateStyleTagLength(s, i)
    case VueOpen => if At(s, i, "{{") then 2 else 0
    case VueClose => if At(s, i, "}}") then 2 else 0
    case SvelteBlocks =>
      if i + 1 < |s| && s[i] == '{' && s[i + 1] in "#/:@" then 2 + AlnumRun(s, i + 2) else 0
  }

  /** `out` agrees with `src` from offset `off` on, except for characters
      turned into spaces. */
  predicate SameOrSpace(out: string, src: string, off: nat) {
    off + |out| <= |src| && forall k :: 0 <= k < |out| ==> out[k] == src[off + k] || out[k] == ' '
  }

  lemma SameOrSpaceConcat(a: string, b: string, src: string, off: nat)
    requires SameOrSpace(a, src, off) && SameOrSpace(b, src, off + |a|)
    ensures SameOrSpace(a + b, src, off)
  {
    forall k | 0 <= k < |a + b|
      ensures (a + b)[k] == src[off + k] || (a + b)[k] == ' '
    {
      if k >= |a| { assert (a + b)[k] == b[k - |a|]; }
    }
  }

  /** What the match of `rule` at `i` is replaced by: text of the same length
      that differs from the match only by spaces. */
  function Replacement(rule: Rule, s: string, i: nat): (t: string)
    requires i <= |s| && MatchLength(rule, s, i) > 0
    ensures |t| == MatchLength(rule, s, i)
    ensures SameOrSpace(t, s, i)
  {
    match rule
    case VueOpen => " {"
    case VueClose => "} "
    case _ => Spaces(MatchLength(rule, s, i))
  }

  /** `s.replace(regex, …)` with the `g` flag, from index `i` on: scan left to
      right, replace each match and resume after it. */
  function ReplaceFrom(rule: Rule, s: string, i: nat): (out: string)
    requires i <= |s|
    decreases |s| - i
    ensures |out| == |s| - i
    ensures SameOrSpace(out, s, i)
  {
    if i == |s| then ""
    else
      var n := MatchLength(rule, s, i);
      if n == 0 then
        var rest := ReplaceFrom(rule, s, i + 1);
        SameOrSpaceConcat([s[i]], rest, s, i);
        [s[i]] + rest
      else
        var t := Replacement(rule, s, i);
        var rest := ReplaceFrom(rule, s, i + n);
        SameOrSpaceConcat(t, rest, s, i);
        t + rest
  }

  function ReplaceAll(rule: Rule, s: string): (out: string)
    ensures |out| == |s|
    ensures forall k :: 0 <= k < |s| ==> out[k] == s[k] || out[k] == ' '
  {
    ReplaceFrom(rule, s, 0)
  }

  /** Regex-replace semantics: text before the leftmost match is copied
      unchanged, the match is replaced, and scanning resumes right after it. */
  lemma {:induction false} ReplaceLeftmost(rule: Rule, s: string, i: nat, j: nat)
    requires i <= j <= |s|
    requires forall k :: i <= k < j ==> MatchLength(rule, s, k) == 0
    ensures ReplaceFrom(rule, s, i) == s[i..j] + ReplaceFrom(rule, s, j)
    decreases j - i
  {
    if i < j {
      assert ReplaceFrom(rule, s, i) == [s[i]] + ReplaceFrom(rule, s, i + 1) by {
        assert MatchLength(rule, s, i) == 0;
        ReplaceStep(rule, s, i);
      }
      var rest := ReplaceFrom(rule, s, j);
      assert ReplaceFrom(rule, s, i + 1) == s[i + 1..j] + rest by {
        ReplaceLeftmost(rule, s, i + 1, j);
      }
      ConsSlice(s, i, j, rest);
    } else {
      assert s[i..j] == [];
    }
  }

  lemma ConsSlice(s: string, i: nat, j: nat, rest: string)
    requires i < j <= |s|
    ensures [s[i]] + (s[i + 1..j] + rest) == s[i..j] + rest
  {
    assert s[i..j] == [s[i]] + s[i + 1..j];
  }

  /** One step of the scan. */
  lemma ReplaceStep(rule: Rule, s: string, i: nat)
    requires i < |s|
    ensures MatchLength(rule, s, i) == 0 ==> ReplaceFrom(rule, s, i) == [s[i]] + ReplaceFrom(rule, s, i + 1)
    ensures MatchLength(rule, s, i) > 0 ==>
              ReplaceFrom(rule, s, i) == Replacement(rule, s, i) + ReplaceFrom(rule, s, i + MatchLength(rule, s, i))
  {
  }

  /** Text where the rule matches nowhere is left unchanged. */
  lemma NoMatchUnchanged(rule: Rule, s: string)
    requires forall k :: 0 <= k < |s| ==> MatchLength(rule, s, k) == 0
    ensures ReplaceAll(rule, s) == s
  {
    ReplaceLeftmost(rule, s, 0, |s|);
  }

  /** No `<`: neither tag rule can match anywhere. */
  predicate NoAngle(s: string) { forall k :: 0 <= k < |s| ==> s[k] != '<' }

  /** No brace: none of the brace rules can match anywhere. */
  predicate NoBrace(s: string) { forall k :: 0 <= k < |s| ==> s[k] != '{' && s[k] != '}' }

  /** Every tag match starts with `<`, every other match with a brace. */
  lemma MatchStartsWith(rule: Rule, s: string, k: nat)
    requires k < |s| && MatchLength(rule, s, k) > 0
    ensures (rule.ScriptTags? || rule.TemplateStyleTags?) ==> s[k] == '<'
    ensures !(rule.ScriptTags? || rule.TemplateStyleTags?) ==> s[k] == '{' || s[k] == '}'
  {
    if rule.ScriptTags? {
      var w := if AtNoCase(s, k, "<script") && BoundaryAt(s, k + 7) && ThroughTagEnd(s, k, k + 7) > 0 then 7 else 9;
      assert AtNoCase(s, k, ["<script", "</script>"][if w == 7 then 0 else 1]);
      assert Lower(s[k..k + w])[0] == LowerChar(s[k]) == '<';
    }
  }

  /** Text without `<` passes the tag rules unchanged. */
  lemma NoAngleUnchanged(rule: Rule, s: string)
    requires rule.ScriptTags? || rule.TemplateStyleTags?
    requires NoAngle(s)
    ensures ReplaceAll(rule, s) == s
  {
    forall k | 0 <= k < |s|
      ensures MatchLength(rule, s, k) == 0
    {
      if MatchLength(rule, s, k) > 0 {
        MatchStartsWith(rule, s, k);
      }
    }
    NoMatchUnchanged(rule, s);
  }

  /** Text without braces passes the brace rules unchanged. */
  lemma NoBraceUnchanged(rule: Rule, s: string)
    requires !(rule.ScriptTags? || rule.TemplateStyleTags?)
    requires NoBrace(s)
    ensures ReplaceAll(rule, s) == s
  {
    NoMatchUnchanged(rule, s);
  }

  /** `extractScriptContent(text, extension)`. */
  function ExtractScriptContent(text: string, extension: string): (r: string)
    ensures |r| == |text|
    ensures forall k :: 0 <= k < |text| ==> r[k] == text[k] || r[k] == ' '
    ensures extension != ".vue" && extension != ".svelte" ==> r == text
  {
    if extension != ".vue" && extension != ".svelte" then text
    else
      var t := ReplaceAll(TemplateStyleTags, ReplaceAll(ScriptTags, text));
      if extension == ".vue" then ReplaceAll(VueClose, ReplaceAll(VueOpen, t))
      else ReplaceAll(SvelteBlocks, t)
  }

  /** Offsets are preserved and nothing but spaces is introduced, so every
      newline of the output is a newline of the input. */
  lemma NewlinesNeverIntroduced(text: string, extension: string, k: nat)
    requires k < |text| && ExtractScriptContent(text, extension)[k] == '\n'
    ensures text[k] == '\n'
  {
  }

  /** A script opener spanning two lines becomes spaces, newline included: the
      offsets survive but the line numbers after it do not. */
  lemma MultiLineOpenerLosesNewline(s: string, blank: string)
    requires s == "<script\n>x" && blank == "         x"
    ensures ExtractScriptContent(s, ".vue") == blank
  {
    MultiLineOpenerBlanked(s, blank);
    NoAngleUnchanged(TemplateStyleTags, blank);
    NoBraceUnchanged(VueOpen, blank);
    NoBraceUnchanged(VueClose, blank);
  }

  lemma MultiLineOpenerBlanked(s: string, blank: string)
    requires s == "<script\n>x" && blank == "         x"
    ensures ReplaceAll(ScriptTags, s) == blank
  {
    MultiLineOpenerLength(s);
    ReplaceStep(ScriptTags, s, 0);
    ReplaceStep(ScriptTags, s, 9);
    assert MatchLength(ScriptTags, s, 9) == 0;
    assert ReplaceFrom(ScriptTags, s, 10) == "";
  }

  lemma MultiLineOpenerLength(s: string)
    requires s == "<script\n>x"
    ensures MatchLength(ScriptTags, s, 0) == 9
  {
    var w := s[0..7];
    assert w == "<script";
    assert Lower(w) == w by {
      assert forall i :: 0 <= i < 7 ==> !IsAsciiUpper(w[i]);
    }
    assert AtNoCase(s, 0, "<script");
    assert s[7] == '\n' && s[8] == '>';
    assert At(s, 8, ">") by { assert s[8..9] == [s[8]]; }
    assert !At(s, 7, ">") by { assert s[7..8] == [s[7]]; }
    IndexOfFirst(s, ">", 7, 8);
    assert IndexOf(s, ">", 7) == Some(8);
    assert BoundaryAt(s, 7);
    OpenerMatch(s, 0);
  }

  /** A `<script` opener followed by a word boundary and a `>` matches
      through that `>`. */
  lemma OpenerMatch(s: string, i: nat)
    requires AtNoCase(s, i, "<script") && BoundaryAt(s, i + 7) && ThroughTagEnd(s, i, i + 7) > 0
    ensures MatchLength(ScriptTags, s, i) == ThroughTagEnd(s, i, i + 7)
  {
  }

  /** Vue double braces lose their outer brace to a space. */
  lemma VueBracesRewritten(s: string, half: string, out: string)
    requires s == "{{a}}" && half == " {a}}" && out == " {a} "
    ensures ExtractScriptContent(s, ".vue") == out
  {
    NoAngleUnchanged(ScriptTags, s);
    NoAngleUnchanged(TemplateStyleTags, s);
    VueOpenRewritten(s, half);
    VueCloseRewritten(half, out);
  }

  lemma VueOpenRewritten(s: string, half: string)
    requires s == "{{a}}" && half == " {a}}"
    ensures ReplaceAll(VueOpen, s) == half
  {
    ReplaceStep(VueOpen, s, 0);
    ReplaceLeftmost(VueOpen, s, 2, 5);
    assert ReplaceFrom(VueOpen, s, 5) == "";
  }

  lemma VueCloseRewritten(half: string, out: string)
    requires half == " {a}}" && out == " {a} "
    ensures ReplaceAll(VueClose, half) == out
  {
    ReplaceLeftmost(VueClose, half, 0, 3);
    ReplaceStep(VueClose, half, 3);
    assert ReplaceFrom(VueClose, half, 5) == "";
  }

  /** In a Svelte file a block directive such as `{#if` is blanked up to the
      end of its word, and its closing brace stays. */
  lemma SvelteDirectiveBlanked(s: string, out: string)
    requires s == "{#if x}" && out == "     x}"
    ensures ExtractScriptContent(s, ".svelte") == out
  {
    NoAngleUnchanged(ScriptTags, s);
    NoAngleUnchanged(TemplateStyleTags, s);
    IfDirectiveMatch(s, out);
  }

  lemma IfDirectiveMatch(s: string, out: string)
    requires s == "{#if x}" && out == "     x}"
    ensures ReplaceAll(SvelteBlocks, s) == out
  {
    assert MatchLength(SvelteBlocks, s, 0) == 4 by {
      assert AlnumRun(s, 2) == 2 by { assert AlnumRun(s, 4) == 0; }
    }
    ReplaceStep(SvelteBlocks, s, 0);
    ReplaceLeftmost(SvelteBlocks, s, 4, 7);
    assert ReplaceFrom(SvelteBlocks, s, 7) == "";
  }

  /** Double braces are rewritten only in Vue files. */
  lemma SvelteKeepsDoubleBraces(u: string)
    requires u == "{{a}}"
    ensures ExtractScriptContent(u, ".svelte") == u
  {
    NoAngleUnchanged(ScriptTags, u);
    NoAngleUnchanged(TemplateStyleTags, u);
    NoMatchUnchanged(SvelteBlocks, u);
  }
}
