/** The dictionary key a content declaration file declares, as the unused
    field decoration and the content definition provider find it: the first
    match of `key\s*:\s*(["'])(.*?)\1` in the document text
    (src/providers/intlayerUnusedDecoration.ts:140,
    src/providers/intlayerContentDefinitionProvider.ts:91). Nothing anchors
    "key" to a word start, and the lazy `.*?` neither crosses a line end nor
    stops at the other kind of quote. */
module KeyDeclaration {
  import opened Wrappers
  import opened Text

  /** A match: where it starts, how long it is, and the text between the quotes. */
  datatype KeyMatch = KeyMatch(start: nat, length: nat, key: string)

  /** The first `q` at or after `k`, unless a line terminator or the end of
      the text comes first. */
  function ClosingQuote(s: string, k: nat, q: char): (r: Option<nat>)
    requires k <= |s| && !IsLineTerminator(q)
    decreases |s| - k
    ensures r.Some? ==> k <= r.value < |s| && s[r.value] == q
    ensures r.Some? ==> forall m :: k <= m < r.value ==> s[m] != q && !IsLineTerminator(s[m])
  {
    if k == |s| then None
    else if s[k] == q then Some(k)
    else if IsLineTerminator(s[k]) then None
    else ClosingQuote(s, k + 1, q)
  }

  /** `key\s*:` at `i`: the index of the colon. */
  function ColonAt(text: string, i: nat): (r: Option<nat>)
    requires i <= |text|
    ensures r.Some? ==> i + 3 <= r.value < |text| && text[r.value] == ':'
  {
    if !At(text, i, "key") then None
    else
      var a := RunEnd(text, i + 3, IsSpace);
      if a == |text| || text[a] != ':' then None else Some(a)
  }

  /** `\s*["']` after the colon at `a`: the index of the opening quote. */
  function QuoteAfter(text: string, a: nat): (r: Option<nat>)
    requires a < |text|
    ensures r.Some? ==> a < r.value < |text| && IsQuote(text[r.value])
  {
    var b := RunEnd(text, a + 1, IsSpace);
    if b == |text| || !IsQuote(text[b]) then None else Some(b)
  }

  /** The regular expression tried at index `i`. */
  function KeyMatchAt(text: string, i: nat): (r: Option<KeyMatch>)
    requires i <= |text|
    ensures r.Some? ==> r.value.start == i && r.value.length >= 6 && i + r.value.length <= |text|
    ensures r.Some? ==> forall m :: 0 <= m < |r.value.key| ==> !IsLineTerminator(r.value.key[m])
  {
    match ColonAt(text, i)
    case None => None
    case Some(a) =>
      match QuoteAfter(text, a)
      case None => None
      case Some(b) =>
        match ClosingQuote(text, b + 1, text[b])
        case None => None
        case Some(c) => Some(KeyMatch(i, c + 1 - i, text[b + 1..c]))
  }

  /** `exec`: the leftmost match at or after `i`. */
  function FindKeyMatch(text: string, i: nat): (r: Option<KeyMatch>)
    requires i <= |text|
    decreases |text| - i
    ensures r.Some? ==> i <= r.value.start <= |text| && KeyMatchAt(text, r.value.start) == r
    ensures r.Some? ==> forall j :: i <= j < r.value.start ==> KeyMatchAt(text, j).None?
    ensures r.None? ==> forall j :: i <= j <= |text| ==> KeyMatchAt(text, j).None?
  {
    if KeyMatchAt(text, i).Some? then KeyMatchAt(text, i)
    else if i == |text| then None
    else FindKeyMatch(text, i + 1)
  }

  /** The whole matched text, `keyMatch[0]`. */
  function Matched(text: string, m: KeyMatch): string
    requires m.start + m.length <= |text|
  {
    text[m.start..m.start + m.length]
  }

  /** The declared dictionary key, `keyMatch[2]`, if any. */
  function DictionaryKey(text: string): Option<string> {
    match FindKeyMatch(text, 0)
    case Some(m) => Some(m.key)
    case None => None
  }

  /** Equal windows of `s` at `i` and of `t` at `j`. */
  predicate SameWindow(s: string, i: nat, t: string, j: nat, n: nat) {
    i + n <= |s| && j + n <= |t| && s[i..i + n] == t[j..j + n]
  }

  lemma SameWindowAt(s: string, i: nat, t: string, j: nat, n: nat, k: nat)
    requires SameWindow(s, i, t, j, n) && k < n
    ensures t[j + k] == s[i + k]
  {
    assert t[j..j + n][k] == s[i..i + n][k];
  }

  lemma SliceShift(s: string, i: nat, t: string, j: nat, n: nat, x: nat, y: nat)
    requires SameWindow(s, i, t, j, n) && i <= x <= y <= i + n
    ensures t[x - i + j..y - i + j] == s[x..y]
  {
    forall k | 0 <= k < y - x ensures t[x - i + j..y - i + j][k] == s[x..y][k] {
      SameWindowAt(s, i, t, j, n, x - i + k);
    }
  }

  lemma ColonShift(s: string, i: nat, t: string, j: nat, n: nat)
    requires SameWindow(s, i, t, j, n) && ColonAt(s, i).Some? && ColonAt(s, i).value < i + n
    ensures ColonAt(t, j) == Some(ColonAt(s, i).value - i + j)
  {
    var a := ColonAt(s, i).value;
    forall k | j + 3 <= k < a - i + j ensures IsSpace(t[k]) {
      SameWindowAt(s, i, t, j, n, k - j);
      assert IsSpace(s[k - j + i]);
    }
    SameWindowAt(s, i, t, j, n, a - i);
    SliceShift(s, i, t, j, n, i, i + 3);
    RunEndSkips(t, j + 3, a - i + j, IsSpace);
  }

  lemma QuoteShift(s: string, i: nat, t: string, j: nat, n: nat, a: nat)
    requires SameWindow(s, i, t, j, n) && i <= a < |s| && QuoteAfter(s, a).Some? && QuoteAfter(s, a).value < i + n
    ensures a - i + j < |t| && QuoteAfter(t, a - i + j) == Some(QuoteAfter(s, a).value - i + j)
  {
    var b := QuoteAfter(s, a).value;
    forall k | a + 1 - i + j <= k < b - i + j ensures IsSpace(t[k]) {
      SameWindowAt(s, i, t, j, n, k - j);
      assert IsSpace(s[k - j + i]);
    }
    SameWindowAt(s, i, t, j, n, b - i);
    RunEndSkips(t, a + 1 - i + j, b - i + j, IsSpace);
  }

  lemma ClosingShift(s: string, i: nat, t: string, j: nat, n: nat, k: nat, q: char)
    requires SameWindow(s, i, t, j, n) && i <= k <= |s| && !IsLineTerminator(q)
    requires ClosingQuote(s, k, q).Some? && ClosingQuote(s, k, q).value < i + n
    ensures ClosingQuote(t, k - i + j, q) == Some(ClosingQuote(s, k, q).value - i + j)
  {
    var c := ClosingQuote(s, k, q).value;
    forall p | k - i + j <= p < c - i + j ensures t[p] != q && !IsLineTerminator(t[p]) {
      SameWindowAt(s, i, t, j, n, p - j);
      assert s[p - j + i] != q && !IsLineTerminator(s[p - j + i]);
    }
    SameWindowAt(s, i, t, j, n, c - i);
    ClosingQuoteAt(t, k - i + j, c - i + j, q);
  }

  /** The three stages of a match at its start. */
  lemma MatchParts(text: string, m: KeyMatch) returns (a: nat, b: nat, c: nat)
    requires m.start <= |text| && KeyMatchAt(text, m.start) == Some(m)
    ensures m.start + 3 <= a < b < c < |text| && IsQuote(text[b])
    ensures ColonAt(text, m.start) == Some(a) && QuoteAfter(text, a) == Some(b)
    ensures ClosingQuote(text, b + 1, text[b]) == Some(c)
    ensures m.length == c + 1 - m.start && m.key == text[b + 1..c]
  {
    a := ColonAt(text, m.start).value;
    b := QuoteAfter(text, a).value;
    c := ClosingQuote(text, b + 1, text[b]).value;
  }

  /** The match at `j` assembled from its three stages. */
  lemma KeyMatchFrom(text: string, j: nat, a: nat, b: nat, c: nat)
    requires j <= |text| && ColonAt(text, j) == Some(a) && QuoteAfter(text, a) == Some(b)
    requires ClosingQuote(text, b + 1, text[b]) == Some(c)
    ensures KeyMatchAt(text, j) == Some(KeyMatch(j, c + 1 - j, text[b + 1..c]))
  {
    var q := text[b];
    assert IsQuote(q) && !IsLineTerminator(q);
    assert ClosingQuote(text, b + 1, q) == Some(c);
  }

  /** A match found again in an equal window of another text. */
  lemma WindowMatch(s: string, m: KeyMatch, t: string, j: nat)
    requires m.start <= |s| && KeyMatchAt(s, m.start) == Some(m)
    requires SameWindow(s, m.start, t, j, m.length)
    ensures KeyMatchAt(t, j) == Some(KeyMatch(j, m.length, m.key))
  {
    var i, n := m.start, m.length;
    var a, b, c := MatchParts(s, m);
    StagesShift(s, i, t, j, n, a, b, c);
    KeyMatchFrom(t, j, a - i + j, b - i + j, c - i + j);
  }

  /** The three stages of a match, found again in an equal window. */
  lemma StagesShift(s: string, i: nat, t: string, j: nat, n: nat, a: nat, b: nat, c: nat)
    requires SameWindow(s, i, t, j, n) && i + 3 <= a < b < c < i + n && IsQuote(s[b])
    requires ColonAt(s, i) == Some(a) && QuoteAfter(s, a) == Some(b)
    requires ClosingQuote(s, b + 1, s[b]) == Some(c)
    ensures ColonAt(t, j) == Some(a - i + j) && QuoteAfter(t, a - i + j) == Some(b - i + j)
    ensures ClosingQuote(t, b - i + j + 1, t[b - i + j]) == Some(c - i + j)
    ensures t[b - i + j + 1..c - i + j] == s[b + 1..c]
  {
    ColonShift(s, i, t, j, n);
    QuoteShift(s, i, t, j, n, a);
    SameWindowAt(s, i, t, j, n, b - i);
    ClosingShift(s, i, t, j, n, b + 1, s[b]);
    SliceShift(s, i, t, j, n, b + 1, c);
  }

  /** A match reads nothing outside itself: the matched text, found anywhere,
      matches there with the same length and key. */
  lemma MatchIsLocal(text: string, m: KeyMatch, j: nat)
    requires m.start <= |text| && KeyMatchAt(text, m.start) == Some(m)
    requires j + m.length <= |text| && text[j..j + m.length] == Matched(text, m)
    ensures KeyMatchAt(text, j) == Some(KeyMatch(j, m.length, m.key))
  {
    var w := Matched(text, m);
    WindowMatch(text, m, w, 0);
    var m' := KeyMatch(0, m.length, m.key);
    WindowMatch(w, m', text, j);
  }

  /** The closing quote is the first `q`, with no line terminator before it. */
  lemma {:induction false} ClosingQuoteAt(s: string, k: nat, c: nat, q: char)
    requires k <= c < |s| && s[c] == q && !IsLineTerminator(q)
    requires forall m :: k <= m < c ==> s[m] != q && !IsLineTerminator(s[m])
    ensures ClosingQuote(s, k, q) == Some(c)
    decreases c - k
  {
    if k < c { ClosingQuoteAt(s, k + 1, c, q); }
  }

  /** `text.indexOf(keyMatch[0])` is where the match starts: an earlier copy of
      the matched text would have matched first. */
  lemma IndexOfMatchIsStart(text: string, m: KeyMatch)
    requires FindKeyMatch(text, 0) == Some(m)
    ensures IndexOf(text, Matched(text, m), 0) == Some(m.start)
  {
    var w := Matched(text, m);
    var r := IndexOf(text, w, 0);
    assert r.Some? && r.value <= m.start by {
      assert At(text, m.start, w);
      IndexOfFirst(text, w, 0, m.start);
    }
    if r.value < m.start {
      var j := r.value;
      assert j + m.length <= |text| && text[j..j + m.length] == w by { assert At(text, j, w); }
      MatchIsLocal(text, m, j);
      assert false;
    }
  }
}
