/** Offsets and positions in an editor document (`TextDocument.positionAt`
    and `lineAt`), with "\n" as the line break. */
module Document {
  import opened Text
  import opened Syntax

  /** How many times `c` occurs in `s`. */
  function Count(s: string, c: char): (n: nat)
    ensures n <= |s|
  {
    if |s| == 0 then 0 else Count(s[..|s| - 1], c) + (if s[|s| - 1] == c then 1 else 0)
  }

  /** `positionAt(offset)`: the line is the number of line breaks before the
      offset, the character the distance from the last of them. */
  function PositionAt(text: string, offset: nat): (r: Pos)
    requires offset <= |text|
    ensures r.character <= offset && r.line == Count(text[..offset], '\n')
    ensures forall k :: offset - r.character <= k < offset ==> text[k] != '\n'
    ensures r.character < offset ==> text[offset - r.character - 1] == '\n'
  {
    if offset == 0 then Pos(0, 0)
    else
      var p := PositionAt(text, offset - 1);
      assert text[..offset][..offset - 1] == text[..offset - 1];
      if text[offset - 1] == '\n' then Pos(p.line + 1, 0) else Pos(p.line, p.character + 1)
  }

  /** `lineAt(line).range.end`: the end of that line's text. */
  function LineEnd(text: string, line: nat): (r: Pos)
    ensures r.line == line
  {
    var lines := Split(text, '\n');
    Pos(line, if line < |lines| then |lines[line]| else 0)
  }
}
