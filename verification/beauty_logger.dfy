/** Rofunc's coloured console messages: a level selects an ANSI colour (bold,
    foreground 31-36) and, for the three lowest levels, a `[Rofunc:...]` tag;
    the content follows and the line closes with the attribute reset. The
    line is returned rather than printed. */
module BeautyLogger {
  import opened Results

  const Escape: char := '\U{1B}'

  /** The attribute-reset sequence every line ends with. */
  const ResetAttributes: string := [Escape] + "[0m"

  datatype LogError = ValueError(message: string)

  predicate ValidLevel(level: int) {
    0 <= level <= 5
  }

  /** What each level writes before the content: `ESC[1;3xm` in red, light
      yellow, light purple, light cyan, light green or light blue, then a tag
      for the first three levels. */
  function Prefix(level: int): (r: string)
    requires ValidLevel(level)
    ensures |r| >= 7 && r[0] == Escape && r[1..5] == "[1;3" && r[6] == 'm'
  {
    match level
    case 0 => [Escape] + "[1;31m[Rofunc:WARNING] "
    case 1 => [Escape] + "[1;33m[Rofunc:MODULE] "
    case 2 => [Escape] + "[1;35m[Rofunc:INFO] "
    case 3 => [Escape] + "[1;36m"
    case 4 => [Escape] + "[1;32m"
    case _ => [Escape] + "[1;34m"
  }

  /** `beauty_print(content, level)` without the trailing newline `print`
      adds; an invalid level raises `ValueError("Invalid level")`. A caller
      that omits the level gets level 1. */
  function BeautyPrint(content: string, level: int): (r: Result<string, LogError>)
    ensures r.Err? <==> !ValidLevel(level)
    ensures r.Err? ==> r.error == ValueError("Invalid level")
    ensures r.Ok? ==> |r.value| == |Prefix(level)| + |content| + |ResetAttributes|
    ensures r.Ok? ==> r.value[..|Prefix(level)|] == Prefix(level)
    ensures r.Ok? ==> r.value[|r.value| - |ResetAttributes|..] == ResetAttributes
    ensures r.Ok? ==> r.value[|Prefix(level)|..|r.value| - |ResetAttributes|] == content
  {
    if !ValidLevel(level) then Err(ValueError("Invalid level"))
    else Ok(Prefix(level) + content + ResetAttributes)
  }

  /** Reads the level back from the last digit of the colour code. */
  function LevelOfDigit(d: char): (r: Option<int>)
    ensures r.Some? ==> ValidLevel(r.value) && Prefix(r.value)[5] == d
  {
    match d
    case '1' => Some(0)
    case '3' => Some(1)
    case '5' => Some(2)
    case '6' => Some(3)
    case '2' => Some(4)
    case '4' => Some(5)
    case _ => None
  }

  /** Recovers the level and the content from a formatted line, or `None` if
      the line is not one `BeautyPrint` could have produced. */
  function ParseLine(line: string): (r: Option<(int, string)>)
    ensures r.Some? ==> ValidLevel(r.value.0) && BeautyPrint(r.value.1, r.value.0) == Ok(line)
  {
    if |line| < 7 + |ResetAttributes| || line[|line| - |ResetAttributes|..] != ResetAttributes then None
    else
      match LevelOfDigit(line[5])
      case None => None
      case Some(level) =>
        var prefix := Prefix(level);
        var end := |line| - |ResetAttributes|;
        if |prefix| <= end && line[..|prefix|] == prefix then
          var content := line[|prefix|..end];
          assert line == prefix + content + ResetAttributes by {
            assert line == line[..|prefix|] + line[|prefix|..end] + line[end..];
          }
          Some((level, content))
        else None
  }

  /** Every accepted line can be read back: the level and the content are
      recovered, so different levels or contents never give the same line. */
  lemma PrintThenParse(content: string, level: int)
    requires ValidLevel(level)
    ensures ParseLine(BeautyPrint(content, level).value) == Some((level, content))
  {
    var prefix := Prefix(level);
    var line := BeautyPrint(content, level).value;
    assert line[5] == prefix[5];
    assert LevelOfDigit(line[5]) == Some(level) by {
      var d := prefix[5];
      assert level == 0 ==> d == '1';
      assert level == 1 ==> d == '3';
      assert level == 2 ==> d == '5';
      assert level == 3 ==> d == '6';
      assert level == 4 ==> d == '2';
      assert level == 5 ==> d == '4';
    }
  }

  /** The three tagged levels put `[Rofunc:WARNING] `, `[Rofunc:MODULE] ` or
      `[Rofunc:INFO] ` straight after the colour code; the others put the
      content there. */
  lemma TagsFollowColour(content: string, level: int)
    requires ValidLevel(level)
    ensures var line := BeautyPrint(content, level).value;
      && (level == 0 ==> line[7..|line| - |ResetAttributes|] == "[Rofunc:WARNING] " + content)
      && (level == 1 ==> line[7..|line| - |ResetAttributes|] == "[Rofunc:MODULE] " + content)
      && (level == 2 ==> line[7..|line| - |ResetAttributes|] == "[Rofunc:INFO] " + content)
      && (level >= 3 ==> line[7..|line| - |ResetAttributes|] == content)
  {
    var prefix := Prefix(level);
    var line := BeautyPrint(content, level).value;
    assert line == prefix + content + ResetAttributes;
    assert line[7..|line| - |ResetAttributes|] == prefix[7..] + content;
  }
}
