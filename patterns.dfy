/**
  The test patterns of the controller: the `PATTERN_*` codes and the
  name-to-code dispatch of the command line (`--test NAME`).
*/
module Patterns {
  import opened Frame

  const PatternNormal: int := 1      // "normal" switches the test pattern off
  const PatternRed: int := 2
  const PatternGreen: int := 3
  const PatternBlue: int := 4
  const PatternWhite: int := 5
  const PatternHorizontal: int := 6
  const PatternVertical: int := 7
  const PatternSlash: int := 8
  const PatternGrayscale: int := 9

  /** The names the command line accepts for `--test`, in the order it lists them. */
  const TestChoices: seq<string> :=
    ["normal", "red", "green", "blue", "white", "slash", "vertical", "horizontal", "grayscale"]

  /**
    The if/elif chain of `main`: the code passed to `show_pattern` for a
    name, or None when no branch matches (nothing is sent).
  */
  function PatternCode(name: string): (code: Option<int>)
    ensures code.Some? <==> name in TestChoices
    ensures code.Some? ==> PatternNormal <= code.value <= PatternGrayscale
    ensures code == Some(PatternNormal) <==> name == "normal"
  {
    if name == "normal" then Some(PatternNormal)
    else if name == "red" then Some(PatternRed)
    else if name == "green" then Some(PatternGreen)
    else if name == "blue" then Some(PatternBlue)
    else if name == "white" then Some(PatternWhite)
    else if name == "slash" then Some(PatternSlash)
    else if name == "vertical" then Some(PatternVertical)
    else if name == "horizontal" then Some(PatternHorizontal)
    else if name == "grayscale" then Some(PatternGrayscale)
    else None
  }

  /** The name that selects a code: an inverse of `PatternCode` on 1..9. */
  function PatternName(code: int): (name: string)
    requires PatternNormal <= code <= PatternGrayscale
    ensures name in TestChoices && PatternCode(name) == Some(code)
  {
    TestChoices[NameIndex(code)]
  }

  /** Position in `TestChoices` of the name for each code. */
  function NameIndex(code: int): (i: nat)
    requires PatternNormal <= code <= PatternGrayscale
    ensures i < |TestChoices|
  {
    [0, 1, 2, 3, 4, 7, 6, 5, 8][code - 1]
  }

  /** Two names that select a pattern select the same one only if they are the same name. */
  lemma PatternCodeInjective(a: string, b: string)
    requires PatternCode(a).Some? && PatternCode(a) == PatternCode(b)
    ensures a == b
  {
  }

  /** Every accepted name is the name of its own code. */
  lemma PatternNameOfCode(name: string)
    requires name in TestChoices
    ensures PatternName(PatternCode(name).value) == name
  {
    PatternCodeInjective(PatternName(PatternCode(name).value), name);
  }

  /** The nine choices are nine distinct names with nine distinct codes. */
  lemma {:induction false} ChoicesDistinct(i: int, j: int)
    requires 0 <= i < |TestChoices| && 0 <= j < |TestChoices| && i != j
    ensures TestChoices[i] != TestChoices[j]
    ensures PatternCode(TestChoices[i]) != PatternCode(TestChoices[j])
  {
  }
}
