/**
 * Offset -> (line, column), as `getPosition` computes it in both `Link` and
 * `Label`: cut the content at the offset, split the prefix on newlines, count
 * the pieces and measure the last one.
 */
module Positions {
  import opened TextUtil

  datatype Position = Position(line: nat, column: nat)

  /** `content.substring(0, index)`: JavaScript clamps the index into `[0, |content|]`. */
  function Prefix(content: string, index: int): (p: string)
    ensures |p| == if index < 0 then 0 else if index > |content| then |content| else index
    ensures p == content[..|p|]
  {
    if index < 0 then "" else if index > |content| then content else content[..index]
  }

  /** `getPosition(index, content)`. */
  function PositionOf(content: string, index: int): (pos: Position)
    ensures pos.line >= 1 && pos.column >= 1
  {
    var lines := Split(Prefix(content, index), '\n');
    Position(|lines|, |lines[|lines| - 1]| + 1)
  }

  /**
   * The line is one more than the number of newlines before the offset; the
   * column is one more than the length `c` of the text after the last of those
   * newlines, i.e. the prefix ends in `c` newline-free characters that are
   * either the whole prefix or preceded by a newline.
   */
  lemma PositionCharacterised(content: string, index: int)
    ensures var pos := PositionOf(content, index);
      pos.line == 1 + NewlineCount(Prefix(content, index))
    ensures var p, c := Prefix(content, index), PositionOf(content, index).column - 1;
      && c <= |p|
      && (forall j :: |p| - c <= j < |p| ==> p[j] != '\n')
      && (c == |p| || p[|p| - c - 1] == '\n')
  {
    SplitLinesShape(Prefix(content, index));
  }

  /** On a prefix without newlines the position is line 1, column `index + 1`. */
  lemma {:induction false} PositionOnFirstLine(content: string, index: int)
    requires 0 <= index <= |content|
    requires '\n' !in content[..index]
    ensures PositionOf(content, index) == Position(1, index + 1)
  {
    var p := Prefix(content, index);
    assert p == content[..index];
    PositionCharacterised(content, index);
    NewlineCountIsMultiplicity(p);
    assert '\n' !in multiset(p);
  }

  /**
   * The position depends on nothing but the text before the offset: two
   * contents that agree up to the offset give the same position.
   */
  lemma {:induction false} PositionDependsOnPrefixOnly(c1: string, c2: string, index: nat)
    requires index <= |c1| && index <= |c2|
    requires c1[..index] == c2[..index]
    ensures PositionOf(c1, index) == PositionOf(c2, index)
  {
    assert Prefix(c1, index) == Prefix(c2, index);
  }
}
