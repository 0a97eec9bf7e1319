/** Worked cases of the matrix operations on small inputs. */
module Examples {
  import opened Sequences
  import opened Numbers
  import opened Matrices
  import opened MatrixText

  lemma FromRowsExample()
    ensures FromRows([[1, 2], [3, 4]]) == Ok(Matrix(2, 2, [1, 2, 3, 4]))
    ensures FromRows([[1, 2], [3]]) == Err(DimensionError)
    ensures FromRows([]) == Ok(Matrix(0, 0, []))
  {
    var rows: seq<seq<int>> := [[1, 2], [3, 4]];
    assert rows[1..] == [[3, 4]] && rows[1..][1..] == [];
    assert Flatten(rows) == [1, 2] + ([3, 4] + []) == [1, 2, 3, 4];
    assert forall i :: 0 <= i < |rows| ==> |rows[i]| == |rows[0]|;
    var ragged: seq<seq<int>> := [[1, 2], [3]];
    assert |ragged[1]| != |ragged[0]|;
  }

  lemma AddExample()
    ensures Add(Matrix(2, 2, [1, 2, 3, 4]), Matrix(2, 2, [1, 2, 3, 4])) == Ok(Matrix(2, 2, [2, 4, 6, 8]))
    ensures Add(Matrix(2, 2, [1, 2, 3, 4]), Matrix(1, 4, [1, 2, 3, 4])) == Err(DimensionError)
  {
    var a := Matrix(2, 2, [1, 2, 3, 4]);
    assert Add(a, a).value.data == [2, 4, 6, 8];
  }

  lemma ProductExample()
    ensures Product(Matrix(2, 2, [1, 2, 3, 4]), Matrix(2, 2, [5, 6, 7, 8])) == Ok(Matrix(2, 2, [19, 22, 43, 50]))
    ensures Product(Matrix(2, 3, [1, 2, 3, 4, 5, 6]), Matrix(2, 3, [1, 2, 3, 4, 5, 6])) == Err(DimensionError)
  {
    var a, b := Matrix(2, 2, [1, 2, 3, 4]), Matrix(2, 2, [5, 6, 7, 8]);
    ProductSpec(a, b);
    MatrixExt(Product(a, b).value, Matrix(2, 2, [19, 22, 43, 50]));
  }

  lemma ReverseProductExample()
    ensures Product(Matrix(2, 2, [5, 6, 7, 8]), Matrix(2, 2, [1, 2, 3, 4])) == Ok(Matrix(2, 2, [23, 34, 31, 46]))
  {
    var a, b := Matrix(2, 2, [1, 2, 3, 4]), Matrix(2, 2, [5, 6, 7, 8]);
    ProductSpec(b, a);
    var p, q := Product(b, a).value, Matrix(2, 2, [23, 34, 31, 46]);
    assert At(p, 0, 0) == At(q, 0, 0) && At(p, 0, 1) == At(q, 0, 1);
    assert At(p, 1, 0) == At(q, 1, 0) && At(p, 1, 1) == At(q, 1, 1);
    MatrixExt(p, q);
  }

  /** The product is not commutative. */
  lemma ProductNotCommutative()
    ensures Product(Matrix(2, 2, [1, 2, 3, 4]), Matrix(2, 2, [5, 6, 7, 8]))
         != Product(Matrix(2, 2, [5, 6, 7, 8]), Matrix(2, 2, [1, 2, 3, 4]))
  {
    ReverseProductExample();
    ProductExample();
  }

  lemma ColumnMeansExample()
    ensures ColumnMeans(Matrix(2, 3, [1, 2, 3, 4, 5, 6])) == [2, 3, 4]
    ensures ColumnMeans(Matrix(2, 1, [-1, -2])) == [-1]
  {
  }

  /** The words of `x y` for single-character words. */
  lemma TwoWords(x: char, y: char)
    requires !IsWhitespace(x) && !IsWhitespace(y)
    ensures Tokens([x, ' ', y]) == [[x], [y]]
  {
    SplitAtSep([x], ' ', [y], IsWhitespace);
    assert [x] + [' '] + [y] == [x, ' ', y];
    SplitNoSep([y], IsWhitespace);
    var pieces: seq<string> := [[x], [y]];
    DropEmptyKeeps(pieces);
  }

  /** Two spaces in a row make no empty word. */
  lemma WhitespaceRun()
    ensures Tokens("1  2") == ["1", "2"]
  {
    assert "1  2" == "1" + [' '] + " 2";
    assert " 2" == "" + [' '] + "2";
    TokensAtWhitespace("1", ' ', " 2");
    TokensAtWhitespace("", ' ', "2");
    TokensNoWhitespace("2");
  }

  lemma SingleDigit(c: char)
    requires IsDigit(c)
    ensures ParseInt([c]) == Some(DigitValue(c))
  {
    assert [c][..0] == [];
    assert DigitsValue([c]) == DigitsValue([c][..0]) * 10 + DigitValue(c) == DigitValue(c);
    assert !(c == '+' || c == '-');
  }

  /** A line of two one-digit numbers parses as their row. */
  lemma TwoDigitsRow(x: char, y: char)
    requires IsDigit(x) && IsDigit(y)
    ensures ParseRow(Tokens([x, ' ', y])) == Ok([DigitValue(x), DigitValue(y)])
  {
    TwoWords(x, y);
    SingleDigit(x);
    SingleDigit(y);
    assert ParseInt([x]) == Some(DigitValue(x)) && ParseInt([y]) == Some(DigitValue(y));
    assert ParseRow([[x], [y]]).value == [DigitValue(x), DigitValue(y)];
  }

  /** The two lines "1 2" and "3 4" parse as the rows [1, 2] and [3, 4]. */
  lemma TwoLines()
    ensures ParseLines(["1 2", "3 4"]) == Ok([[1, 2], [3, 4]])
  {
    TwoDigitsRow('1', '2');
    TwoDigitsRow('3', '4');
    assert ParseLines(["1 2", "3 4"]).value == [[1, 2], [3, 4]];
  }

  lemma ParseExample()
    ensures Parse("1 2\n3 4\n") == Ok(Matrix(2, 2, [1, 2, 3, 4]))
  {
    assert Terminated(["1 2", "3 4"]) == "1 2\n3 4\n";
    LinesOfTerminated(["1 2", "3 4"]);
    TwoLines();
    FromRowsExample();
  }

  /** A last line without a final newline is still a line. */
  lemma UnterminatedLines()
    ensures Lines("1 2\n3 4") == ["1 2", "3 4"]
  {
    assert "1 2\n3 4" == "1 2" + "\n" + "3 4";
    LinesAtNewline("1 2", "3 4");
    LinesNoNewline("3 4");
    assert StripCr("1 2") == "1 2" && StripCr("3 4") == "3 4";
  }

  /** So the text parses as it would with a final newline. */
  lemma UnterminatedExample()
    ensures Parse("1 2\n3 4") == Ok(Matrix(2, 2, [1, 2, 3, 4]))
  {
    UnterminatedLines();
    TwoLines();
    FromRowsExample();
  }

  /** A carriage return before the newline is not part of the line. */
  lemma CrLfExample()
    ensures Lines("1\r\n") == ["1"]
  {
    assert "1\r\n" == "1\r" + "\n" + "";
    LinesAtNewline("1\r", "");
    var empty: seq<string> := [[]];
    assert Split("", IsNewline) == empty;
    assert Lines("") == [];
    assert StripCr("1\r") == "1";
  }

  lemma ParseErrorExample()
    ensures Parse("1 x\n") == Err(ParseError)
  {
    assert Terminated(["1 x"]) == "1 x\n";
    LinesOfTerminated(["1 x"]);
    TwoWords('1', 'x');
    assert ParseInt("x") == None;
    assert ParseRow(Tokens("1 x")).Err?;
    assert ParseLines(Lines("1 x\n")).Err?;
  }

  lemma OneAndBlank()
    ensures ParseRow(Tokens("1")) == Ok([1])
    ensures ParseRow(Tokens("")) == Ok([])
  {
    SplitNoSep("1", IsWhitespace);
    var one: seq<string> := ["1"];
    DropEmptyKeeps(one);
    var empty: seq<string> := [[]];
    assert DropEmpty(empty) == DropEmpty(empty[1..]);
    assert Tokens("") == [];
    SingleDigit('1');
    assert ParseRow(["1"]).value == [1];
  }

  /** A blank line is a row with no elements, so beside a non-empty row it
      makes the rows ragged. */
  lemma BlankLineExample()
    ensures Parse("1\n\n") == Err(DimensionError)
  {
    assert Terminated(["1", ""]) == "1\n\n";
    LinesOfTerminated(["1", ""]);
    OneAndBlank();
    var rows: seq<seq<int>> := [[1], []];
    assert ParseLines(["1", ""]).value == rows;
    assert |rows[1]| != |rows[0]|;
  }

  lemma FormatExample()
    ensures Format(Matrix(2, 2, [1, -2, 3, 4])) == "1\t-2\n3\t4\n"
  {
    var m := Matrix(2, 2, [1, -2, 3, 4]);
    assert m.data[..2] == [1, -2] && m.data[2..] == [3, 4];
    assert Chunks([3, 4], 2) == [[3, 4]];
    assert Rows(m) == [[1, -2], [3, 4]];
    assert IntToString(1) == "1" && IntToString(-2) == "-2";
    assert IntToString(3) == "3" && IntToString(4) == "4";
    var r0, r1 := [1, -2], [3, 4];
    assert seq(|r0|, k requires 0 <= k < |r0| => IntToString(r0[k])) == ["1", "-2"];
    assert seq(|r1|, k requires 0 <= k < |r1| => IntToString(r1[k])) == ["3", "4"];
    assert Join(["1", "-2"], '\t') == "1" + ['\t'] + "-2" == "1\t-2";
    assert Join(["3", "4"], '\t') == "3" + ['\t'] + "4" == "3\t4";
    assert FormatRow(r0) == "1\t-2" && FormatRow(r1) == "3\t4";
    var rows := Rows(m);
    assert seq(|rows|, r requires 0 <= r < |rows| => FormatRow(rows[r])) == ["1\t-2", "3\t4"];
    assert Terminated(["1\t-2", "3\t4"]) == "1\t-2\n3\t4\n";
  }
}
