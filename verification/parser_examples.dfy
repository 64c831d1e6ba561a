/** Worked examples of the example-input scanner on inputs of the shape the
    problem catalogue holds, each checked one loop iteration at a time. */
module InputParserExamples {

  import opened InputParser
  import opened JsStrings
  import opened Wrappers

  lemma TargetSumUpTo8(str: string)
    requires str == "nums = [2,7,11,15], target = 9"
    ensures Scan(str, 8) == ScanState([], 0, Lexer(1, None))
  {
    assert str[0] == 'n';
    assert str[1] == 'u';
    assert str[2] == 'm';
    assert str[3] == 's';
    assert str[4] == ' ';
    assert str[5] == '=';
    assert str[6] == ' ';
    assert str[7] == '[';
    assert Scan(str, 0) == ScanState([], 0, Lexer(0, None));
    assert Scan(str, 1) == ScanState([], 0, Lexer(0, None));
    assert Scan(str, 2) == ScanState([], 0, Lexer(0, None));
    assert Scan(str, 3) == ScanState([], 0, Lexer(0, None));
    assert Scan(str, 4) == ScanState([], 0, Lexer(0, None));
    assert Scan(str, 5) == ScanState([], 0, Lexer(0, None));
    assert Scan(str, 6) == ScanState([], 0, Lexer(0, None));
    assert Scan(str, 7) == ScanState([], 0, Lexer(0, None));
    assert Scan(str, 8) == ScanState([], 0, Lexer(1, None));
  }

  lemma TargetSumUpTo16(str: string)
    requires str == "nums = [2,7,11,15], target = 9"
    ensures Scan(str, 16) == ScanState([], 0, Lexer(1, None))
  {
    assert str[8] == '2';
    assert str[9] == ',';
    assert str[10] == '7';
    assert str[11] == ',';
    assert str[12] == '1';
    assert str[13] == '1';
    assert str[14] == ',';
    assert str[15] == '1';
    TargetSumUpTo8(str);
    assert Scan(str, 9) == ScanState([], 0, Lexer(1, None));
    assert Scan(str, 10) == ScanState([], 0, Lexer(1, None));
    assert Scan(str, 11) == ScanState([], 0, Lexer(1, None));
    assert Scan(str, 12) == ScanState([], 0, Lexer(1, None));
    assert Scan(str, 13) == ScanState([], 0, Lexer(1, None));
    assert Scan(str, 14) == ScanState([], 0, Lexer(1, None));
    assert Scan(str, 15) == ScanState([], 0, Lexer(1, None));
    assert Scan(str, 16) == ScanState([], 0, Lexer(1, None));
  }

  lemma TargetSumUpTo18(str: string)
    requires str == "nums = [2,7,11,15], target = 9"
    ensures Scan(str, 18) == ScanState([], 0, Lexer(0, None))
  {
    assert str[16] == '5';
    assert str[17] == ']';
    TargetSumUpTo16(str);
    assert Scan(str, 17) == ScanState([], 0, Lexer(1, None));
    assert Scan(str, 18) == ScanState([], 0, Lexer(0, None));
  }

  lemma TargetSumUpTo19(str: string)
    requires str == "nums = [2,7,11,15], target = 9"
    ensures Scan(str, 19) == ScanState(["nums = [2,7,11,15]"], 19, Lexer(0, None))
  {
    assert str[18] == ',';
    TargetSumUpTo18(str);
    assert str[0..18] == "nums = [2,7,11,15]";
    assert TrimStart("nums = [2,7,11,15]") == "nums = [2,7,11,15]";
    assert TrimEnd("nums = [2,7,11,15]") == "nums = [2,7,11,15]";
    assert Scan(str, 19) == ScanState(["nums = [2,7,11,15]"], 19, Lexer(0, None));
  }

  lemma TargetSumUpTo24(str: string)
    requires str == "nums = [2,7,11,15], target = 9"
    ensures Scan(str, 24) == ScanState(["nums = [2,7,11,15]"], 19, Lexer(0, None))
  {
    assert str[19] == ' ';
    assert str[20] == 't';
    assert str[21] == 'a';
    assert str[22] == 'r';
    assert str[23] == 'g';
    TargetSumUpTo19(str);
    assert Scan(str, 20) == ScanState(["nums = [2,7,11,15]"], 19, Lexer(0, None));
    assert Scan(str, 21) == ScanState(["nums = [2,7,11,15]"], 19, Lexer(0, None));
    assert Scan(str, 22) == ScanState(["nums = [2,7,11,15]"], 19, Lexer(0, None));
    assert Scan(str, 23) == ScanState(["nums = [2,7,11,15]"], 19, Lexer(0, None));
    assert Scan(str, 24) == ScanState(["nums = [2,7,11,15]"], 19, Lexer(0, None));
  }

  lemma TargetSumUpTo30(str: string)
    requires str == "nums = [2,7,11,15], target = 9"
    ensures Scan(str, 30) == ScanState(["nums = [2,7,11,15]"], 19, Lexer(0, None))
  {
    assert str[24] == 'e';
    assert str[25] == 't';
    assert str[26] == ' ';
    assert str[27] == '=';
    assert str[28] == ' ';
    assert str[29] == '9';
    TargetSumUpTo24(str);
    assert Scan(str, 25) == ScanState(["nums = [2,7,11,15]"], 19, Lexer(0, None));
    assert Scan(str, 26) == ScanState(["nums = [2,7,11,15]"], 19, Lexer(0, None));
    assert Scan(str, 27) == ScanState(["nums = [2,7,11,15]"], 19, Lexer(0, None));
    assert Scan(str, 28) == ScanState(["nums = [2,7,11,15]"], 19, Lexer(0, None));
    assert Scan(str, 29) == ScanState(["nums = [2,7,11,15]"], 19, Lexer(0, None));
    assert Scan(str, 30) == ScanState(["nums = [2,7,11,15]"], 19, Lexer(0, None));
  }

  /** The shape of a typical catalogue example: the commas inside the list are not cuts. */
  lemma TargetSum(str: string)
    requires str == "nums = [2,7,11,15], target = 9"
    ensures SafeSplit(str) == ["nums = [2,7,11,15]", "target = 9"]
  {
    TargetSumUpTo30(str);
    assert str[19..] == " target = 9";
    assert TrimStart(" target = 9") == "target = 9";
    assert TrimEnd("target = 9") == "target = 9";
  }

  lemma NestedListArgumentUpTo8(str: string)
    requires str == "matrix = [[1,2],[3,4]], k = 2"
    ensures Scan(str, 8) == ScanState([], 0, Lexer(0, None))
  {
    assert str[0] == 'm';
    assert str[1] == 'a';
    assert str[2] == 't';
    assert str[3] == 'r';
    assert str[4] == 'i';
    assert str[5] == 'x';
    assert str[6] == ' ';
    assert str[7] == '=';
    assert Scan(str, 0) == ScanState([], 0, Lexer(0, None));
    assert Scan(str, 1) == ScanState([], 0, Lexer(0, None));
    assert Scan(str, 2) == ScanState([], 0, Lexer(0, None));
    assert Scan(str, 3) == ScanState([], 0, Lexer(0, None));
    assert Scan(str, 4) == ScanState([], 0, Lexer(0, None));
    assert Scan(str, 5) == ScanState([], 0, Lexer(0, None));
    assert Scan(str, 6) == ScanState([], 0, Lexer(0, None));
    assert Scan(str, 7) == ScanState([], 0, Lexer(0, None));
    assert Scan(str, 8) == ScanState([], 0, Lexer(0, None));
  }

  lemma NestedListArgumentUpTo16(str: string)
    requires str == "matrix = [[1,2],[3,4]], k = 2"
    ensures Scan(str, 16) == ScanState([], 0, Lexer(1, None))
  {
    assert str[8] == ' ';
    assert str[9] == '[';
    assert str[10] == '[';
    assert str[11] == '1';
    assert str[12] == ',';
    assert str[13] == '2';
    assert str[14] == ']';
    assert str[15] == ',';
    NestedListArgumentUpTo8(str);
    assert Scan(str, 9) == ScanState([], 0, Lexer(0, None));
    assert Scan(str, 10) == ScanState([], 0, Lexer(1, None));
    assert Scan(str, 11) == ScanState([], 0, Lexer(2, None));
    assert Scan(str, 12) == ScanState([], 0, Lexer(2, None));
    assert Scan(str, 13) == ScanState([], 0, Lexer(2, None));
    assert Scan(str, 14) == ScanState([], 0, Lexer(2, None));
    assert Scan(str, 15) == ScanState([], 0, Lexer(1, None));
    assert Scan(str, 16) == ScanState([], 0, Lexer(1, None));
  }

  lemma NestedListArgumentUpTo22(str: string)
    requires str == "matrix = [[1,2],[3,4]], k = 2"
    ensures Scan(str, 22) == ScanState([], 0, Lexer(0, None))
  {
    assert str[16] == '[';
    assert str[17] == '3';
    assert str[18] == ',';
    assert str[19] == '4';
    assert str[20] == ']';
    assert str[21] == ']';
    NestedListArgumentUpTo16(str);
    assert Scan(str, 17) == ScanState([], 0, Lexer(2, None));
    assert Scan(str, 18) == ScanState([], 0, Lexer(2, None));
    assert Scan(str, 19) == ScanState([], 0, Lexer(2, None));
    assert Scan(str, 20) == ScanState([], 0, Lexer(2, None));
    assert Scan(str, 21) == ScanState([], 0, Lexer(1, None));
    assert Scan(str, 22) == ScanState([], 0, Lexer(0, None));
  }

  lemma NestedListArgumentUpTo23(str: string)
    requires str == "matrix = [[1,2],[3,4]], k = 2"
    ensures Scan(str, 23) == ScanState(["matrix = [[1,2],[3,4]]"], 23, Lexer(0, None))
  {
    assert str[22] == ',';
    NestedListArgumentUpTo22(str);
    assert str[0..22] == "matrix = [[1,2],[3,4]]";
    assert TrimStart("matrix = [[1,2],[3,4]]") == "matrix = [[1,2],[3,4]]";
    assert TrimEnd("matrix = [[1,2],[3,4]]") == "matrix = [[1,2],[3,4]]";
    assert Scan(str, 23) == ScanState(["matrix = [[1,2],[3,4]]"], 23, Lexer(0, None));
  }

  lemma NestedListArgumentUpTo24(str: string)
    requires str == "matrix = [[1,2],[3,4]], k = 2"
    ensures Scan(str, 24) == ScanState(["matrix = [[1,2],[3,4]]"], 23, Lexer(0, None))
  {
    assert str[23] == ' ';
    NestedListArgumentUpTo23(str);
    assert Scan(str, 24) == ScanState(["matrix = [[1,2],[3,4]]"], 23, Lexer(0, None));
  }

  lemma NestedListArgumentUpTo29(str: string)
    requires str == "matrix = [[1,2],[3,4]], k = 2"
    ensures Scan(str, 29) == ScanState(["matrix = [[1,2],[3,4]]"], 23, Lexer(0, None))
  {
    assert str[24] == 'k';
    assert str[25] == ' ';
    assert str[26] == '=';
    assert str[27] == ' ';
    assert str[28] == '2';
    NestedListArgumentUpTo24(str);
    assert Scan(str, 25) == ScanState(["matrix = [[1,2],[3,4]]"], 23, Lexer(0, None));
    assert Scan(str, 26) == ScanState(["matrix = [[1,2],[3,4]]"], 23, Lexer(0, None));
    assert Scan(str, 27) == ScanState(["matrix = [[1,2],[3,4]]"], 23, Lexer(0, None));
    assert Scan(str, 28) == ScanState(["matrix = [[1,2],[3,4]]"], 23, Lexer(0, None));
    assert Scan(str, 29) == ScanState(["matrix = [[1,2],[3,4]]"], 23, Lexer(0, None));
  }

  /** Nested brackets keep every inner comma: exactly two pieces. */
  lemma NestedListArgument(str: string)
    requires str == "matrix = [[1,2],[3,4]], k = 2"
    ensures SafeSplit(str) == ["matrix = [[1,2],[3,4]]", "k = 2"]
  {
    NestedListArgumentUpTo29(str);
    assert str[23..] == " k = 2";
    assert TrimStart(" k = 2") == "k = 2";
    assert TrimEnd("k = 2") == "k = 2";
  }

  lemma TwoArgumentsUpTo7(str: string)
    requires str == "a=[1,2],b=3"
    ensures Scan(str, 7) == ScanState([], 0, Lexer(0, None))
  {
    assert str[0] == 'a';
    assert str[1] == '=';
    assert str[2] == '[';
    assert str[3] == '1';
    assert str[4] == ',';
    assert str[5] == '2';
    assert str[6] == ']';
    assert Scan(str, 0) == ScanState([], 0, Lexer(0, None));
    assert Scan(str, 1) == ScanState([], 0, Lexer(0, None));
    assert Scan(str, 2) == ScanState([], 0, Lexer(0, None));
    assert Scan(str, 3) == ScanState([], 0, Lexer(1, None));
    assert Scan(str, 4) == ScanState([], 0, Lexer(1, None));
    assert Scan(str, 5) == ScanState([], 0, Lexer(1, None));
    assert Scan(str, 6) == ScanState([], 0, Lexer(1, None));
    assert Scan(str, 7) == ScanState([], 0, Lexer(0, None));
  }

  lemma TwoArgumentsUpTo8(str: string)
    requires str == "a=[1,2],b=3"
    ensures Scan(str, 8) == ScanState(["a=[1,2]"], 8, Lexer(0, None))
  {
    assert str[7] == ',';
    TwoArgumentsUpTo7(str);
    assert str[0..7] == "a=[1,2]";
    assert TrimStart("a=[1,2]") == "a=[1,2]";
    assert TrimEnd("a=[1,2]") == "a=[1,2]";
    assert Scan(str, 8) == ScanState(["a=[1,2]"], 8, Lexer(0, None));
  }

  lemma TwoArgumentsUpTo11(str: string)
    requires str == "a=[1,2],b=3"
    ensures Scan(str, 11) == ScanState(["a=[1,2]"], 8, Lexer(0, None))
  {
    assert str[8] == 'b';
    assert str[9] == '=';
    assert str[10] == '3';
    TwoArgumentsUpTo8(str);
    assert Scan(str, 9) == ScanState(["a=[1,2]"], 8, Lexer(0, None));
    assert Scan(str, 10) == ScanState(["a=[1,2]"], 8, Lexer(0, None));
    assert Scan(str, 11) == ScanState(["a=[1,2]"], 8, Lexer(0, None));
  }

  /** Two top-level assignments are separated; the comma inside the list is not a cut. */
  lemma TwoArguments(str: string)
    requires str == "a=[1,2],b=3"
    ensures SafeSplit(str) == ["a=[1,2]", "b=3"]
  {
    TwoArgumentsUpTo11(str);
    assert str[8..] == "b=3";
    assert TrimStart("b=3") == "b=3";
    assert TrimEnd("b=3") == "b=3";
  }

  lemma QuotedCommaUpTo7(str: string)
    requires str == "s='a,b',k=1"
    ensures Scan(str, 7) == ScanState([], 0, Lexer(0, None))
  {
    assert str[0] == 's';
    assert str[1] == '=';
    assert str[2] == '\'';
    assert str[3] == 'a';
    assert str[4] == ',';
    assert str[5] == 'b';
    assert str[6] == '\'';
    assert Scan(str, 0) == ScanState([], 0, Lexer(0, None));
    assert Scan(str, 1) == ScanState([], 0, Lexer(0, None));
    assert Scan(str, 2) == ScanState([], 0, Lexer(0, None));
    assert Scan(str, 3) == ScanState([], 0, Lexer(0, Some('\'')));
    assert Scan(str, 4) == ScanState([], 0, Lexer(0, Some('\'')));
    assert Scan(str, 5) == ScanState([], 0, Lexer(0, Some('\'')));
    assert Scan(str, 6) == ScanState([], 0, Lexer(0, Some('\'')));
    assert Scan(str, 7) == ScanState([], 0, Lexer(0, None));
  }

  lemma QuotedCommaUpTo8(str: string)
    requires str == "s='a,b',k=1"
    ensures Scan(str, 8) == ScanState(["s='a,b'"], 8, Lexer(0, None))
  {
    assert str[7] == ',';
    QuotedCommaUpTo7(str);
    assert str[0..7] == "s='a,b'";
    assert TrimStart("s='a,b'") == "s='a,b'";
    assert TrimEnd("s='a,b'") == "s='a,b'";
    assert Scan(str, 8) == ScanState(["s='a,b'"], 8, Lexer(0, None));
  }

  lemma QuotedCommaUpTo11(str: string)
    requires str == "s='a,b',k=1"
    ensures Scan(str, 11) == ScanState(["s='a,b'"], 8, Lexer(0, None))
  {
    assert str[8] == 'k';
    assert str[9] == '=';
    assert str[10] == '1';
    QuotedCommaUpTo8(str);
    assert Scan(str, 9) == ScanState(["s='a,b'"], 8, Lexer(0, None));
    assert Scan(str, 10) == ScanState(["s='a,b'"], 8, Lexer(0, None));
    assert Scan(str, 11) == ScanState(["s='a,b'"], 8, Lexer(0, None));
  }

  /** A comma inside a quoted string is not a cut. */
  lemma QuotedComma(str: string)
    requires str == "s='a,b',k=1"
    ensures SafeSplit(str) == ["s='a,b'", "k=1"]
  {
    QuotedCommaUpTo11(str);
    assert str[8..] == "k=1";
    assert TrimStart("k=1") == "k=1";
    assert TrimEnd("k=1") == "k=1";
  }

  lemma NegativeDepthUpTo7(str: string)
    requires str == "a=],b=1"
    ensures Scan(str, 7) == ScanState([], 0, Lexer(-1, None))
  {
    assert str[0] == 'a';
    assert str[1] == '=';
    assert str[2] == ']';
    assert str[3] == ',';
    assert str[4] == 'b';
    assert str[5] == '=';
    assert str[6] == '1';
    assert Scan(str, 0) == ScanState([], 0, Lexer(0, None));
    assert Scan(str, 1) == ScanState([], 0, Lexer(0, None));
    assert Scan(str, 2) == ScanState([], 0, Lexer(0, None));
    assert Scan(str, 3) == ScanState([], 0, Lexer(-1, None));
    assert Scan(str, 4) == ScanState([], 0, Lexer(-1, None));
    assert Scan(str, 5) == ScanState([], 0, Lexer(-1, None));
    assert Scan(str, 6) == ScanState([], 0, Lexer(-1, None));
    assert Scan(str, 7) == ScanState([], 0, Lexer(-1, None));
  }

  /** A stray closing bracket drives the depth below zero, after which no comma cuts. */
  lemma NegativeDepth(str: string)
    requires str == "a=],b=1"
    ensures SafeSplit(str) == ["a=],b=1"]
  {
    NegativeDepthUpTo7(str);
    assert str[0..] == "a=],b=1";
    assert TrimStart("a=],b=1") == "a=],b=1";
    assert TrimEnd("a=],b=1") == "a=],b=1";
  }

  lemma TrailingCommaUpTo5(str: string)
    requires str == "x = 1,"
    ensures Scan(str, 5) == ScanState([], 0, Lexer(0, None))
  {
    assert str[0] == 'x';
    assert str[1] == ' ';
    assert str[2] == '=';
    assert str[3] == ' ';
    assert str[4] == '1';
    assert Scan(str, 0) == ScanState([], 0, Lexer(0, None));
    assert Scan(str, 1) == ScanState([], 0, Lexer(0, None));
    assert Scan(str, 2) == ScanState([], 0, Lexer(0, None));
    assert Scan(str, 3) == ScanState([], 0, Lexer(0, None));
    assert Scan(str, 4) == ScanState([], 0, Lexer(0, None));
    assert Scan(str, 5) == ScanState([], 0, Lexer(0, None));
  }

  lemma TrailingCommaUpTo6(str: string)
    requires str == "x = 1,"
    ensures Scan(str, 6) == ScanState(["x = 1"], 6, Lexer(0, None))
  {
    assert str[5] == ',';
    TrailingCommaUpTo5(str);
    assert str[0..5] == "x = 1";
    assert TrimStart("x = 1") == "x = 1";
    assert TrimEnd("x = 1") == "x = 1";
    assert Scan(str, 6) == ScanState(["x = 1"], 6, Lexer(0, None));
  }

  /** A trailing comma adds no empty last piece. */
  lemma TrailingComma(str: string)
    requires str == "x = 1,"
    ensures SafeSplit(str) == ["x = 1"]
  {
    TrailingCommaUpTo6(str);
  }
}
