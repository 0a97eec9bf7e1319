/** The text form of a matrix: `impl Display` and `impl FromStr` of
    src/matrix.rs, and the round trip between them. */
module MatrixText {
  import opened Sequences
  import opened Numbers
  import opened Matrices

  /** `char::is_whitespace`: the Unicode White_Space characters. */
  predicate IsWhitespace(ch: char) {
    var n := ch as int;
    || (9 <= n <= 13) || n == 0x20 || n == 0x85 || n == 0xA0 || n == 0x1680
    || (0x2000 <= n <= 0x200A) || n == 0x2028 || n == 0x2029 || n == 0x202F
    || n == 0x205F || n == 0x3000
  }

  predicate IsNewline(ch: char) {
    ch == '\n'
  }

  predicate IsTab(ch: char) {
    ch == '\t'
  }

  /** The characters printed integers and their tab separators are made of. */
  predicate IsFormatChar(ch: char) {
    IsDigit(ch) || ch == '-' || ch == '\t'
  }

  // ----- parsing -----

  /** Drops one trailing carriage return. */
  function StripCr(line: string): string {
    if |line| > 0 && line[|line| - 1] == '\r' then line[..|line| - 1] else line
  }

  /** `str::lines`: the text cut at every `\n`; a final `\n` does not open
      another line, and one `\r` before a line end is dropped. */
  function Lines(text: string): (lines: seq<string>)
    ensures forall k :: 0 <= k < |lines| ==> NoSep(lines[k], IsNewline)
  {
    var pieces := Split(text, IsNewline);
    var lines := if pieces[|pieces| - 1] == [] then pieces[..|pieces| - 1] else pieces;
    seq(|lines|, k requires 0 <= k < |lines| => StripCr(lines[k]))
  }

  /** A non-empty text without a newline is one line, and so is that text
      followed by a final newline. */
  lemma LinesNoNewline(x: string)
    requires |x| > 0 && NoSep(x, IsNewline)
    ensures Lines(x) == [StripCr(x)]
    ensures Lines(x + "\n") == [StripCr(x)]
  {
    SplitNoSep(x, IsNewline);
    assert x + "\n" == x + "\n" + "";
    LinesAtNewline(x, "");
    LinesOfTerminated([]);
    assert Terminated([]) == "";
  }

  /** The first newline ends the first line, and the rest of the text gives
      the remaining lines; a final newline opens no further line. */
  lemma LinesAtNewline(x: string, y: string)
    requires NoSep(x, IsNewline)
    ensures Lines(x + "\n" + y) == [StripCr(x)] + Lines(y)
  {
    SplitAtSep(x, '\n', y, IsNewline);
    var rest := Split(y, IsNewline);
    var pieces := Split(x + "\n" + y, IsNewline);
    assert pieces == [x] + rest;
    assert pieces[|pieces| - 1] == rest[|rest| - 1];
    var kept := if rest[|rest| - 1] == [] then rest[..|rest| - 1] else rest;
    assert (if pieces[|pieces| - 1] == [] then pieces[..|pieces| - 1] else pieces) == [x] + kept;
    var result := Lines(x + "\n" + y);
    assert |result| == 1 + |Lines(y)|;
    forall k | 0 <= k < |result| ensures result[k] == ([StripCr(x)] + Lines(y))[k] {
    }
  }

  /** `split(char::is_whitespace)` followed by dropping the empty words. */
  function Tokens(line: string): (words: seq<string>)
    ensures forall i :: 0 <= i < |words| ==> |words[i]| > 0 && NoSep(words[i], IsWhitespace)
  {
    DropEmpty(Split(line, IsWhitespace))
  }

  /** A line without whitespace is one word, or none when it is empty. */
  lemma TokensNoWhitespace(x: string)
    requires NoSep(x, IsWhitespace)
    ensures Tokens(x) == if |x| == 0 then [] else [x]
  {
    SplitNoSep(x, IsWhitespace);
    DropEmptyOne(x);
  }

  /** At the first whitespace character the line is cut: the text before it
      is a word unless it is empty, and the rest is read on. So a run of
      several whitespace characters yields no empty words. */
  lemma TokensAtWhitespace(x: string, c: char, y: string)
    requires NoSep(x, IsWhitespace) && IsWhitespace(c)
    ensures Tokens(x + [c] + y) == (if |x| == 0 then [] else [x]) + Tokens(y)
  {
    SplitAtSep(x, c, y, IsWhitespace);
    DropEmptyAppend([x], Split(y, IsWhitespace));
    DropEmptyOne(x);
  }

  /** One row: every token must parse as a 32-bit integer. */
  function ParseRow(tokens: seq<string>): (r: Result<seq<int>>)
    ensures r.Ok? <==> forall k :: 0 <= k < |tokens| ==> ParseInt(tokens[k]).Some?
    ensures r.Err? ==> r.error == ParseError
    ensures r.Ok? ==> (|r.value| == |tokens|
                       && forall k :: 0 <= k < |tokens| ==> r.value[k] == ParseInt(tokens[k]).value)
  {
    if |tokens| == 0 then Ok([])
    else match ParseInt(tokens[0])
      case None => Err(ParseError)
      case Some(x) =>
        var rest := ParseRow(tokens[1..]);
        if rest.Err? then rest else Ok([x] + rest.value)
  }

  /** All lines: the first line with a bad token fails the whole parse. */
  function ParseLines(lines: seq<string>): (r: Result<seq<seq<int>>>)
    ensures r.Ok? <==> forall l :: 0 <= l < |lines| ==> ParseRow(Tokens(lines[l])).Ok?
    ensures r.Err? ==> r.error == ParseError
    ensures r.Ok? ==> (|r.value| == |lines|
                       && forall l :: 0 <= l < |lines| ==> r.value[l] == ParseRow(Tokens(lines[l])).value)
  {
    if |lines| == 0 then Ok([])
    else
      var row := ParseRow(Tokens(lines[0]));
      if row.Err? then Err(row.error)
      else
        var rest := ParseLines(lines[1..]);
        if rest.Err? then rest else Ok([row.value] + rest.value)
  }

  /** `impl FromStr`: one row per line, then `from_2d`. */
  function Parse(text: string): Result<Matrix> {
    var rows := ParseLines(Lines(text));
    if rows.Err? then Err(rows.error) else FromRows(rows.value)
  }

  /** The three outcomes of parsing: a bad token, ragged lines, or the matrix
      whose row r holds the values of line r's tokens. */
  lemma ParseSpec(text: string)
    ensures var ls := Lines(text);
      (exists l, k :: 0 <= l < |ls| && 0 <= k < |Tokens(ls[l])| && ParseInt(Tokens(ls[l])[k]).None?)
      <==> Parse(text) == Err(ParseError)
    ensures var ls := Lines(text);
      (forall l, k :: 0 <= l < |ls| && 0 <= k < |Tokens(ls[l])| ==> ParseInt(Tokens(ls[l])[k]).Some?)
      ==> (&& (ls == [] ==> Parse(text) == Ok(Empty()))
           && ((exists l :: 0 <= l < |ls| && |Tokens(ls[l])| != |Tokens(ls[0])|)
               <==> Parse(text) == Err(DimensionError))
           && (Parse(text).Ok? && ls != [] ==>
                 var m := Parse(text).value;
                 && Valid(m) && Dims(m) == (|ls|, |Tokens(ls[0])|)
                 && forall r, c :: 0 <= r < |ls| && 0 <= c < |Tokens(ls[0])| ==>
                      At(m, r, c) == ParseInt(Tokens(ls[r])[c]).value))
  {
    var ls := Lines(text);
    var rows := ParseLines(ls);
    ParseErrorCause(text);
    if rows.Ok? {
      FromRowsSpec(rows.value);
      assert forall l :: 0 <= l < |ls| ==> |rows.value[l]| == |Tokens(ls[l])|;
    }
  }

  /** A parse error comes only from a token that does not parse. */
  lemma ParseErrorCause(text: string)
    ensures var ls := Lines(text);
      Parse(text) == Err(ParseError) ==>
      exists l, k :: 0 <= l < |ls| && 0 <= k < |Tokens(ls[l])| && ParseInt(Tokens(ls[l])[k]).None?
  {
    var ls := Lines(text);
    var rows := ParseLines(ls);
    if rows.Ok? {
      FromRowsSpec(rows.value);
    } else if Parse(text) == Err(ParseError) {
      var l :| 0 <= l < |ls| && ParseRow(Tokens(ls[l])).Err?;
      var k :| 0 <= k < |Tokens(ls[l])| && ParseInt(Tokens(ls[l])[k]).None?;
    }
  }

  // ----- formatting -----

  /** One row: each element's decimal text, joined by tabs. */
  function FormatRow(row: seq<int>): string {
    Join(seq(|row|, k requires 0 <= k < |row| => IntToString(row[k])), '\t')
  }

  /** Every line followed by a newline. */
  function Terminated(lines: seq<string>): string {
    if |lines| == 0 then "" else lines[0] + "\n" + Terminated(lines[1..])
  }

  /** `impl Display`: every row's text followed by a newline. With no columns
      the source panics in `rows()`, so that case is excluded. */
  function Format(m: Matrix): string
    requires Valid(m) && m.numCols > 0
  {
    var rows := Rows(m);
    Terminated(seq(|rows|, r requires 0 <= r < |rows| => FormatRow(rows[r])))
  }

  function CountNewlines(s: string): nat {
    if |s| == 0 then 0 else CountNewlines(s[1..]) + (if s[0] == '\n' then 1 else 0)
  }

  lemma {:induction false} CountNewlinesAppend(a: string, b: string)
    ensures CountNewlines(a + b) == CountNewlines(a) + CountNewlines(b)
  {
    if |a| > 0 {
      assert (a + b)[1..] == a[1..] + b;
      CountNewlinesAppend(a[1..], b);
    } else {
      assert a + b == b;
    }
  }

  lemma {:induction false} CountNewlinesNone(s: string)
    requires NoSep(s, IsNewline)
    ensures CountNewlines(s) == 0
  {
    if |s| > 0 {
      CountNewlinesNone(s[1..]);
    }
  }

  lemma IntToStringChars(x: int)
    ensures |IntToString(x)| > 0
    ensures forall k :: 0 <= k < |IntToString(x)| ==> IsDigit(IntToString(x)[k]) || IntToString(x)[k] == '-'
  {
    if x < 0 {
      var d := NatToString(-x);
      assert forall k :: 1 <= k < |IntToString(x)| ==> IntToString(x)[k] == d[k - 1];
    }
  }

  /** A formatted row holds only digits, minus signs and tabs. */
  lemma FormatRowChars(row: seq<int>)
    ensures forall k :: 0 <= k < |FormatRow(row)| ==> IsFormatChar(FormatRow(row)[k])
  {
    var parts := seq(|row|, k requires 0 <= k < |row| => IntToString(row[k]));
    forall i | 0 <= i < |parts| ensures forall k :: 0 <= k < |parts[i]| ==> IsFormatChar(parts[i][k]) {
      IntToStringChars(row[i]);
    }
    JoinElements(parts, '\t', IsFormatChar);
  }

  /** Cut at its tabs, a printed row with elements gives exactly its
      elements' texts: one tab between neighbours, no other tab. */
  lemma FormatRowTabs(row: seq<int>)
    requires |row| > 0
    ensures Split(FormatRow(row), IsTab) == seq(|row|, k requires 0 <= k < |row| => IntToString(row[k]))
  {
    var parts := seq(|row|, k requires 0 <= k < |row| => IntToString(row[k]));
    forall i | 0 <= i < |parts| ensures NoSep(parts[i], IsTab) {
      IntToStringChars(row[i]);
    }
    SplitJoin(parts, '\t', IsTab);
  }

  /** A formatted row splits back into its elements' texts. */
  lemma TokensOfFormatRow(row: seq<int>)
    ensures Tokens(FormatRow(row)) == seq(|row|, k requires 0 <= k < |row| => IntToString(row[k]))
  {
    var parts := seq(|row|, k requires 0 <= k < |row| => IntToString(row[k]));
    if |row| == 0 {
      assert FormatRow(row) == [];
      assert Split(FormatRow(row), IsWhitespace) == [[]];
      var empty: seq<string> := [[]];
      assert DropEmpty(empty) == DropEmpty(empty[1..]);
    } else {
      forall i | 0 <= i < |parts| ensures NoSep(parts[i], IsWhitespace) && |parts[i]| > 0 {
        IntToStringChars(row[i]);
      }
      SplitJoin(parts, '\t', IsWhitespace);
      DropEmptyKeeps(parts);
    }
  }

  lemma {:induction false} SplitTerminated(lines: seq<string>)
    requires forall i :: 0 <= i < |lines| ==> NoSep(lines[i], IsNewline)
    ensures Split(Terminated(lines), IsNewline) == lines + [[]]
    ensures CountNewlines(Terminated(lines)) == |lines|
  {
    if |lines| > 0 {
      var rest := Terminated(lines[1..]);
      SplitTerminated(lines[1..]);
      SplitAtSep(lines[0], '\n', rest, IsNewline);
      assert Terminated(lines) == lines[0] + ['\n'] + rest;
      assert [lines[0]] + (lines[1..] + [[]]) == lines + [[]];
      CountNewlinesNone(lines[0]);
      CountNewlinesAppend(lines[0] + ['\n'], rest);
      CountNewlinesAppend(lines[0], ['\n']);
    }
  }

  /** Lines ended by newlines, free of newlines and of a final carriage
      return, are read back as they were. */
  lemma LinesOfTerminated(lines: seq<string>)
    requires forall i :: 0 <= i < |lines| ==> NoSep(lines[i], IsNewline) && StripCr(lines[i]) == lines[i]
    ensures Lines(Terminated(lines)) == lines
  {
    SplitTerminated(lines);
    var pieces := Split(Terminated(lines), IsNewline);
    assert pieces[|pieces| - 1] == [];
    assert pieces[..|pieces| - 1] == lines;
    var result := Lines(Terminated(lines));
    assert |result| == |lines|;
    forall k | 0 <= k < |lines| ensures result[k] == lines[k] {
    }
  }

  /** The text of a matrix has one line per row, each ended by the only
      newline characters in the text. */
  lemma FormatLayout(m: Matrix)
    requires Valid(m) && m.numCols > 0
    ensures CountNewlines(Format(m)) == m.numRows
    ensures |Rows(m)| == m.numRows
    ensures Lines(Format(m)) == seq(m.numRows, r requires 0 <= r < m.numRows => FormatRow(Rows(m)[r]))
    ensures Split(Format(m), IsNewline) == seq(m.numRows, r requires 0 <= r < m.numRows => FormatRow(Rows(m)[r])) + [[]]
  {
    RowsSpec(m);
    var rows := Rows(m);
    var texts := seq(|rows|, r requires 0 <= r < |rows| => FormatRow(rows[r]));
    forall i | 0 <= i < |texts|
      ensures NoSep(texts[i], IsNewline) && StripCr(texts[i]) == texts[i]
    {
      FormatRowChars(rows[i]);
    }
    SplitTerminated(texts);
    LinesOfTerminated(texts);
  }

  /** Parsing the elements' texts of a row of 32-bit values gives the row. */
  lemma ParseFormattedRow(row: seq<int>)
    requires forall k :: 0 <= k < |row| ==> InI32(row[k])
    ensures ParseRow(Tokens(FormatRow(row))) == Ok(row)
  {
    TokensOfFormatRow(row);
    forall k | 0 <= k < |row| ensures ParseInt(IntToString(row[k])) == Some(row[k]) {
      ParseIntToString(row[k]);
    }
    assert ParseRow(Tokens(FormatRow(row))).value == row;
  }

  /** The lines of a matrix's text parse back to its rows. */
  lemma ParseLinesOfFormat(m: Matrix)
    requires Valid(m) && m.numCols > 0
    requires forall k :: 0 <= k < |m.data| ==> InI32(m.data[k])
    ensures ParseLines(Lines(Format(m))) == Ok(Rows(m))
  {
    var rows := Rows(m);
    RowsInI32(m);
    FormatLayout(m);
    var ls := Lines(Format(m));
    forall l | 0 <= l < |ls| ensures ParseRow(Tokens(ls[l])) == Ok(rows[l]) {
      ParseFormattedRow(rows[l]);
    }
    assert ParseLines(ls).value == rows;
  }

  lemma RowsInI32(m: Matrix)
    requires Valid(m) && m.numCols > 0
    requires forall k :: 0 <= k < |m.data| ==> InI32(m.data[k])
    ensures |Rows(m)| == m.numRows
    ensures forall r, c :: 0 <= r < m.numRows && 0 <= c < |Rows(m)[r]| ==> InI32(Rows(m)[r][c])
  {
    var rows := Rows(m);
    ChunksExact(m.data, m.numCols, m.numRows);
    forall r, c | 0 <= r < m.numRows && 0 <= c < |rows[r]| ensures InI32(rows[r][c]) {
      FlattenAt(rows, m.numCols, r, c);
    }
  }

  /** `from_2d` of a matrix's rows is the matrix. */
  lemma FromRowsOfRows(m: Matrix)
    requires Valid(m) && m.numRows > 0 && m.numCols > 0
    ensures FromRows(Rows(m)) == Ok(m)
  {
    ChunksExact(m.data, m.numCols, m.numRows);
    assert |Rows(m)[0]| == m.numCols;
  }

  /** Parsing the text of a matrix with at least one row and one column gives
      the matrix back (its elements are 32-bit values, as the element type
      guarantees). */
  lemma ParseFormat(m: Matrix)
    requires Valid(m) && m.numRows > 0 && m.numCols > 0
    requires forall k :: 0 <= k < |m.data| ==> InI32(m.data[k])
    ensures Parse(Format(m)) == Ok(m)
  {
    ParseLinesOfFormat(m);
    FromRowsOfRows(m);
  }
}
