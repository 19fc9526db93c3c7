/** A printer of dumps, spelled out in characters and bytes of its own and sharing none with the parser, and that the
    parser gives the printed rows back. */
module DumpWriter {
  import opened GoStrings
  import opened Wrappers
  import opened DumpGrammar
  import opened DumpParser
  import opened DumpLiteral
  import opened DumpProof
  import DumpReader

  // ------------------------------------------------------------------ what is written

  /** NULL in any case, a number as it is spelled, or a string of any bytes. */
  datatype Datum = NullDatum(text: Bytes) | Number(text: Bytes) | Str(bytes: Bytes)

  /** A value with the white space around it. */
  datatype Field = Field(before: Bytes, datum: Datum, after: Bytes)

  datatype Tuple = Tuple(before: Bytes, fields: seq<Field>, after: Bytes)

  /** An INSERT statement, and anything in front of it. */
  datatype Insert = Insert(gap: Bytes, table: Bytes, tuples: seq<Tuple>)

  predicate IsAscii(s: string) {
    forall k | 0 <= k < |s| :: s[k] as int < 0x80
  }

  function Ascii(s: string): Bytes
    requires IsAscii(s)
  {
    seq(|s|, i requires 0 <= i < |s| => s[i] as int as Byte)
  }

  /** mysqldump escapes NUL, newline, return, backslash, both quotes and Control-Z. */
  function EscapedByte(b: Byte): Bytes {
    if b == 0x00 then [0x5C, 0x30]
    else if b == 0x0A then [0x5C, 0x6E]
    else if b == 0x0D then [0x5C, 0x72]
    else if b == 0x1A then [0x5C, 0x5A]
    else if b == 0x22 || b == 0x27 || b == 0x5C then [0x5C, b]
    else [b]
  }

  function EscapedText(s: Bytes): Bytes {
    if s == [] then [] else EscapedByte(s[0]) + EscapedText(s[1..])
  }

  function DatumText(d: Datum): Bytes {
    match d
    case NullDatum(text) => text
    case Number(text) => text
    case Str(bytes) => [0x27] + EscapedText(bytes) + [0x27]
  }

  function FieldText(f: Field): Bytes {
    f.before + DatumText(f.datum) + f.after
  }

  function FieldsText(fields: seq<Field>): Bytes {
    if fields == [] then []
    else if |fields| == 1 then FieldText(fields[0])
    else FieldText(fields[0]) + Ascii(",") + FieldsText(fields[1..])
  }

  function TupleText(t: Tuple): Bytes {
    t.before + Ascii("(") + FieldsText(t.fields) + Ascii(")") + t.after
  }

  function TuplesText(tuples: seq<Tuple>): Bytes {
    if tuples == [] then []
    else if |tuples| == 1 then TupleText(tuples[0])
    else TupleText(tuples[0]) + Ascii(",") + TuplesText(tuples[1..])
  }

  function InsertText(i: Insert): Bytes {
    i.gap + Ascii("INSERT INTO `") + i.table + Ascii("` VALUES") + TuplesText(i.tuples) + Ascii(";")
  }

  function DumpText(ins: seq<Insert>, tail: Bytes): Bytes {
    if ins == [] then tail else InsertText(ins[0]) + DumpText(ins[1..], tail)
  }

  // ------------------------------------------------------------------ what can be written

  predicate White(s: Bytes) {
    forall b | b in s :: b == 0x20 || b == 0x0A || b == 0x0D || b == 0x09
  }

  predicate SpellsNull(text: Bytes) {
    && |text| == 4 && (text[0] == 0x4E || text[0] == 0x6E) && (text[1] == 0x55 || text[1] == 0x75)
    && (text[2] == 0x4C || text[2] == 0x6C) && (text[3] == 0x4C || text[3] == 0x6C)
  }

  predicate NumberByte(b: Byte) {
    0x30 <= b <= 0x39 || b == 0x2B || b == 0x2D || b == 0x2E || b == 0x45 || b == 0x65
  }

  /** A number is written in digits, signs, points and exponents, and parses as one. */
  predicate DatumOk(d: Datum, numeric: Bytes -> bool) {
    match d
    case NullDatum(text) => SpellsNull(text)
    case Number(text) => text != [] && (forall b | b in text :: NumberByte(b)) && numeric(text)
    case Str(_) => true
  }

  predicate FieldOk(f: Field, numeric: Bytes -> bool) {
    White(f.before) && DatumOk(f.datum, numeric) && White(f.after)
  }

  predicate TupleOk(t: Tuple, numeric: Bytes -> bool) {
    White(t.before) && White(t.after) && t.fields != [] && forall f | f in t.fields :: FieldOk(f, numeric)
  }

  ghost predicate InsertOk(i: Insert, numeric: Bytes -> bool) {
    && Absent(i.gap, Ascii("INSERT INTO `")) && 0x60 !in i.table
    && i.tuples != [] && forall t | t in i.tuples :: TupleOk(t, numeric)
  }

  // ------------------------------------------------------------------ what it stands for

  function DatumValue(d: Datum): Value {
    match d
    case NullDatum(_) => Null
    case Number(text) => Text(text)
    case Str(bytes) => Text(bytes)
  }

  function TupleValues(t: Tuple): seq<Value> {
    seq(|t.fields|, j requires 0 <= j < |t.fields| => DatumValue(t.fields[j].datum))
  }

  function RowValues(tuples: seq<Tuple>): seq<seq<Value>> {
    seq(|tuples|, k requires 0 <= k < |tuples| => TupleValues(tuples[k]))
  }

  /** All the rows inserted into a table, in order. */
  function Inserted(ins: seq<Insert>, table: Bytes): seq<seq<Value>> {
    if ins == [] then []
    else
      Inserted(ins[..|ins| - 1], table) + if ins[|ins| - 1].table == table then RowValues(ins[|ins| - 1].tuples) else []
  }

  function InsertedTables(ins: seq<Insert>): set<Bytes> {
    set i | i in ins :: i.table
  }

  function Tables(ins: seq<Insert>): map<Bytes, seq<seq<Value>>> {
    map table | table in InsertedTables(ins) :: Inserted(ins, table)
  }

  // ------------------------------------------------------------------ the same in the parser's grammar

  function EscapeByte(b: Byte): Piece {
    if b == 0x00 then Escaped(0x30)
    else if b == 0x0A then Escaped(0x6E)
    else if b == 0x0D then Escaped(0x72)
    else if b == 0x1A then Escaped(0x5A)
    else if b == 0x5C || b == 0x27 || b == 0x22 then Escaped(b)
    else Raw(b)
  }

  function Escape(s: Bytes): seq<Piece> {
    if s == [] then [] else [EscapeByte(s[0])] + Escape(s[1..])
  }

  lemma EscapedByteMeansItself(b: Byte)
    ensures PieceOk(EscapeByte(b)) && PieceMeaning(EscapeByte(b)) == [b] && PrintPiece(EscapeByte(b)) == EscapedByte(b)
  {
  }

  lemma {:induction false} EscapeMeansItself(s: Bytes)
    ensures PiecesOk(Escape(s)) && PiecesMeaning(Escape(s)) == s
    ensures PrintPieces(Escape(s)) == EscapedText(s) + [0x27]
  {
    if s != [] {
      EscapeMeansItself(s[1..]);
      EscapedByteMeansItself(s[0]);
      assert Escape(s)[1..] == Escape(s[1..]);
      assert [s[0]] + s[1..] == s;
      assert EscapedByte(s[0]) + (EscapedText(s[1..]) + [0x27]) == EscapedText(s) + [0x27];
    }
  }

  /** The white space after a literal belongs to its text. */
  function FieldLayout(f: Field): Cell {
    match f.datum
    case NullDatum(text) => Cell(f.before, Literal(text + f.after, Null), [])
    case Number(text) => Cell(f.before, Literal(text + f.after, Text(text)), [])
    case Str(bytes) => Cell(f.before, Quoted(Escape(bytes)), f.after)
  }

  function FieldLayouts(fields: seq<Field>): seq<Cell> {
    seq(|fields|, k requires 0 <= k < |fields| => FieldLayout(fields[k]))
  }

  function TupleLayout(t: Tuple): Row {
    Row(t.before, FieldLayouts(t.fields), t.after)
  }

  function TupleLayouts(tuples: seq<Tuple>): seq<Row> {
    seq(|tuples|, k requires 0 <= k < |tuples| => TupleLayout(tuples[k]))
  }

  function InsertLayout(i: Insert): Statement {
    Statement(i.gap, i.table, TupleLayouts(i.tuples))
  }

  function Layouts(ins: seq<Insert>): seq<Statement> {
    seq(|ins|, k requires 0 <= k < |ins| => InsertLayout(ins[k]))
  }

  // ------------------------------------------------------------------ the text is the printed layout

  lemma MarksAgree()
    ensures Ascii("INSERT INTO `") == MARKER && Ascii("` VALUES") == [BACKTICK] + VALUES
    ensures Ascii(",") == [COMMA] && Ascii("(") == [OPEN] && Ascii(")") == [CLOSE] && Ascii(";") == [SEMICOLON]
  {
  }

  lemma FieldIsPrinted(f: Field)
    ensures PrintCell(FieldLayout(f)) == FieldText(f)
  {
    match f.datum
    case NullDatum(text) => assert f.before + (text + f.after) + [] == f.before + text + f.after;
    case Number(text) => assert f.before + (text + f.after) + [] == f.before + text + f.after;
    case Str(bytes) =>
      EscapeMeansItself(bytes);
      assert [0x27] + (EscapedText(bytes) + [0x27]) == [0x27] + EscapedText(bytes) + [0x27];
  }

  lemma {:induction false} FieldsArePrinted(fields: seq<Field>)
    requires fields != []
    ensures PrintCells(FieldLayouts(fields)) == FieldsText(fields) + [CLOSE]
    decreases |fields|
  {
    hide FieldLayout, PrintCell, FieldText;
    FieldIsPrinted(fields[0]);
    MarksAgree();
    if |fields| > 1 {
      var rest := fields[1..];
      FieldsArePrinted(rest);
      assert FieldLayouts(fields)[1..] == FieldLayouts(rest);
      assert FieldText(fields[0]) + ([COMMA] + (FieldsText(rest) + [CLOSE])) == FieldText(fields[0]) + [COMMA] + FieldsText(rest) + [CLOSE];
    }
  }

  lemma Regrouped(a: Bytes, b: Bytes, c: Bytes)
    ensures a + (b + c) == a + b + c
  {
  }

  lemma TupleIsPrinted(t: Tuple)
    requires t.fields != []
    ensures PrintRow(TupleLayout(t)) == TupleText(t)
  {
    hide PrintCells, FieldsText, FieldLayout;
    FieldsArePrinted(t.fields);
    MarksAgree();
    Regrouped(t.before + [OPEN], FieldsText(t.fields), [CLOSE]);
  }

  lemma {:induction false} TuplesArePrinted(tuples: seq<Tuple>)
    requires tuples != [] && forall t | t in tuples :: t.fields != []
    ensures PrintRows(TupleLayouts(tuples)) == TuplesText(tuples) + [SEMICOLON]
    decreases |tuples|
  {
    hide TupleLayout, PrintRow, TupleText;
    TupleIsPrinted(tuples[0]);
    MarksAgree();
    if |tuples| > 1 {
      var rest := tuples[1..];
      TuplesArePrinted(rest);
      assert TupleLayouts(tuples)[1..] == TupleLayouts(rest);
      assert TupleText(tuples[0]) + ([COMMA] + (TuplesText(rest) + [SEMICOLON])) == TupleText(tuples[0]) + [COMMA] + TuplesText(rest) + [SEMICOLON];
    }
  }

  lemma InsertIsPrinted(i: Insert)
    requires i.tuples != [] && forall t | t in i.tuples :: t.fields != []
    ensures PrintStatement(InsertLayout(i)) == InsertText(i)
  {
    hide PrintRows, TuplesText, TupleLayout;
    TuplesArePrinted(i.tuples);
    MarksAgree();
    Regrouped(i.gap + MARKER + i.table, [BACKTICK], VALUES);
    Regrouped(i.gap + MARKER + i.table + [BACKTICK] + VALUES, TuplesText(i.tuples), [SEMICOLON]);
  }

  lemma {:induction false} DumpIsPrinted(ins: seq<Insert>, tail: Bytes)
    requires forall i | i in ins :: i.tuples != [] && forall t | t in i.tuples :: t.fields != []
    ensures PrintStatements(Layouts(ins), tail) == DumpText(ins, tail)
    decreases |ins|
  {
    hide InsertLayout, PrintStatement, InsertText;
    if ins != [] {
      assert ins[0] in ins;
      InsertIsPrinted(ins[0]);
      assert forall i | i in ins[1..] :: i in ins;
      DumpIsPrinted(ins[1..], tail);
      assert Layouts(ins)[1..] == Layouts(ins[1..]);
    }
  }

  // ------------------------------------------------------------------ and well formed

  lemma {:induction false} WhiteIsBlank(s: Bytes)
    requires White(s)
    ensures Blank(s)
  {
    if s != [] {
      assert s[0] in s && forall b | b in s[1..] :: b in s;
      WhiteIsBlank(s[1..]);
    }
  }

  lemma {:induction false} LiteralEndless(text: Bytes)
    requires forall b | b in text :: b != 0x2C && b != 0x29
    ensures Endless(text)
  {
    if text != [] {
      assert text[0] in text && forall b | b in text[1..] :: b in text;
      LiteralEndless(text[1..]);
    }
  }

  lemma TrimOne(s: Bytes, b: Byte)
    requires White([b])
    ensures TrimRight(s + [b]) == TrimRight(s)
  {
    var whole := s + [b];
    assert b in [b] && whole[|whole| - 1..] == [b] && whole[..|whole| - 1] == s;
    assert IsSpaceRune([b]);
  }

  lemma {:induction false} TrimmedAfter(text: Bytes, after: Bytes)
    requires text != [] && White(after) && 0x20 < text[|text| - 1] < 0x7F
    ensures TrimRight(text + after) == text
  {
    var whole := text + after;
    if after == [] {
      assert whole == text;
    } else {
      var n := |after| - 1;
      assert after[n] in after && forall b | b in after[..n] :: b in after;
      assert whole == (text + after[..n]) + [after[n]];
      TrimmedAfter(text, after[..n]);
      TrimOne(text + after[..n], after[n]);
    }
  }

  /** The text of a literal, and the white space after it, is read as the text alone. */
  lemma LiteralIsRead(text: Bytes, after: Bytes, numeric: Bytes -> bool)
    requires text != [] && White(after) && forall b | b in text :: 0x20 < b < 0x7F && b != 0x2C && b != 0x29 && b != 0x27
    requires IsNull(text) || numeric(text)
    ensures LiteralOk(text + after, LiteralsOf(numeric))
    ensures LiteralsOf(numeric)(text + after) == Ok(if IsNull(text) then Null else Text(text))
  {
    hide IsNull;
    var whole := text + after;
    assert text[0] in text && text[|text| - 1] in text;
    assert forall b | b in whole :: b in text || b in after;
    LiteralEndless(whole);
    assert whole[0] == text[0];
    assert TrimLeft(whole) == whole;
    TrimmedAfter(text, after);
  }

  lemma FieldLayoutOk(f: Field, numeric: Bytes -> bool)
    requires FieldOk(f, numeric)
    ensures CellOk(FieldLayout(f), LiteralsOf(numeric)) && TokenMeaning(FieldLayout(f).token) == DatumValue(f.datum)
  {
    hide LiteralOk;
    WhiteIsBlank(f.before);
    WhiteIsBlank(f.after);
    match f.datum
    case NullDatum(text) =>
      LiteralIsRead(text, f.after, numeric);
    case Number(text) =>
      NumberIsNotNull(text);
      LiteralIsRead(text, f.after, numeric);
    case Str(bytes) => EscapeMeansItself(bytes);
  }

  lemma NumberIsNotNull(text: Bytes)
    requires text != [] && forall b | b in text :: NumberByte(b)
    ensures !IsNull(text)
  {
    assert text[0] in text;
  }

  lemma TupleLayoutOk(t: Tuple, numeric: Bytes -> bool)
    requires TupleOk(t, numeric)
    ensures RowOk(TupleLayout(t), LiteralsOf(numeric)) && RowMeaning(TupleLayout(t).cells) == TupleValues(t)
  {
    hide CellOk, TokenMeaning, FieldLayout, DatumValue, FieldOk;
    WhiteIsBlank(t.before);
    WhiteIsBlank(t.after);
    forall k | 0 <= k < |t.fields|
      ensures CellOk(FieldLayout(t.fields[k]), LiteralsOf(numeric))
      ensures TokenMeaning(FieldLayout(t.fields[k]).token) == DatumValue(t.fields[k].datum)
    {
      assert t.fields[k] in t.fields;
      FieldLayoutOk(t.fields[k], numeric);
    }
  }

  lemma InsertLayoutOk(i: Insert, numeric: Bytes -> bool)
    requires InsertOk(i, numeric)
    ensures StatementOk(InsertLayout(i), LiteralsOf(numeric))
    ensures RowsMeaning(InsertLayout(i).rows) == RowValues(i.tuples)
  {
    hide Absent, RowOk, RowMeaning, TupleLayout, TupleOk, TupleValues;
    MarksAgree();
    forall k | 0 <= k < |i.tuples|
      ensures RowOk(InsertLayout(i).rows[k], LiteralsOf(numeric))
      ensures RowMeaning(InsertLayout(i).rows[k].cells) == RowValues(i.tuples)[k]
    {
      assert i.tuples[k] in i.tuples;
      TupleLayoutOk(i.tuples[k], numeric);
    }
    BacktickIs();
  }

  lemma BacktickIs()
    ensures BACKTICK == 0x60
  {
  }

  lemma {:induction false} LayoutsMean(ins: seq<Insert>, table: Bytes, numeric: Bytes -> bool)
    requires forall i | i in ins :: InsertOk(i, numeric)
    ensures TableRows(Layouts(ins), table) == Inserted(ins, table)
  {
    hide InsertOk, InsertLayout, RowsMeaning, RowValues;
    if ins != [] {
      var last := ins[|ins| - 1];
      LayoutsMean(ins[..|ins| - 1], table, numeric);
      InsertLayoutOk(last, numeric);
      TableOfLayout(last);
      assert Layouts(ins)[..|ins| - 1] == Layouts(ins[..|ins| - 1]);
      assert Layouts(ins)[|ins| - 1] == InsertLayout(last);
    }
  }

  lemma TableOfLayout(i: Insert)
    ensures InsertLayout(i).table == i.table
  {
  }

  lemma LayoutsOk(ins: seq<Insert>, numeric: Bytes -> bool)
    requires forall i | i in ins :: InsertOk(i, numeric)
    ensures StatementsOk(Layouts(ins), LiteralsOf(numeric))
    ensures TablesNamed(Layouts(ins)) == InsertedTables(ins)
  {
    hide InsertOk, StatementOk;
    forall k | 0 <= k < |ins|
      ensures StatementOk(Layouts(ins)[k], LiteralsOf(numeric))
    {
      assert ins[k] in ins;
      InsertLayoutOk(ins[k], numeric);
    }
    forall i | i in ins
      ensures exists s | s in Layouts(ins) :: s.table == i.table
    {
      var k :| 0 <= k < |ins| && ins[k] == i;
      assert Layouts(ins)[k] in Layouts(ins);
    }
  }

  lemma SameTables(ins: seq<Insert>, numeric: Bytes -> bool)
    requires forall i | i in ins :: InsertOk(i, numeric)
    ensures DumpMeaning(Layouts(ins)) == Tables(ins)
  {
    hide InsertOk, Layouts, TableRows, Inserted;
    LayoutsOk(ins, numeric);
    forall table | table in InsertedTables(ins)
      ensures TableRows(Layouts(ins), table) == Inserted(ins, table)
    {
      LayoutsMean(ins, table, numeric);
    }
  }

  lemma RowsHaveFields(ins: seq<Insert>, numeric: Bytes -> bool)
    requires forall i | i in ins :: InsertOk(i, numeric)
    ensures forall i | i in ins :: i.tuples != [] && forall t | t in i.tuples :: t.fields != []
  {
    hide Absent;
  }

  /** Whatever rows are written, strings holding quotes, backslashes, parentheses, semicolons or the marker itself
      included, and with any white space around values and tuples, the parser gives back each table's rows in order,
      and no other table. */
  lemma MysqldumpRoundTrip(ins: seq<Insert>, tail: Bytes, numeric: Bytes -> bool)
    requires (forall i | i in ins :: InsertOk(i, numeric)) && Absent(tail, Ascii("INSERT INTO `"))
    ensures DumpReader.TablesOf(ParseDump(DumpText(ins, tail), 0, LiteralsOf(numeric))) == Ok(Tables(ins))
  {
    MarksAgree();
    RowsHaveFields(ins, numeric);
    hide InsertOk, Absent, StatementsOk, PrintStatements, ParseDump, Layouts, TableRows, Inserted, DumpText;
    var d := Dump(Layouts(ins), tail);
    DumpIsPrinted(ins, tail);
    LayoutsOk(ins, numeric);
    AcceptsExactlyTheGrammar(DumpText(ins, tail), d, LiteralsOf(numeric));
    SameTables(ins, numeric);
  }

  // ------------------------------------------------------------------ strings, byte by byte

  /** What a backslash and a byte stand for. */
  lemma EscapesMean(c: Byte)
    ensures Unescape(c) ==
      if c == 0x30 then [0x00]
      else if c == 0x62 then [0x08]
      else if c == 0x6E then [0x0A]
      else if c == 0x72 then [0x0D]
      else if c == 0x74 then [0x09]
      else if c == 0x5A then [0x1A]
      else if c < 0x80 then [c]
      else [0xC0 + c / 0x40, 0x80 + c % 0x40]
  {
  }

  /** A string after its opening quote, at any position of any text: a backslash and the byte after it, two quotes, a
      quote that ends it, or a byte that stands for itself. */
  lemma StringIsReadSo(src: Bytes, i: nat)
    requires i <= |src|
    ensures DumpReader.StringAt(src, i) ==
      if i == |src| then Err(UnterminatedString)
      else if src[i] == 0x5C then
        if i + 1 == |src| then Err(TruncatedEscape)
        else DumpReader.Joined(Unescape(src[i + 1]), DumpReader.StringAt(src, i + 2))
      else if src[i] == 0x27 then
        if i + 1 < |src| && src[i + 1] == 0x27 then DumpReader.Joined([0x27], DumpReader.StringAt(src, i + 2))
        else Ok(Read([], i + 1))
      else DumpReader.Joined([src[i]], DumpReader.StringAt(src, i + 1))
  {
    hide PiecesMeaning, Unescape;
    NoPieces();
    if i < |src| {
      if src[i] == 0x5C {
        if i + 1 < |src| {
          DumpReader.PieceFirst(Escaped(src[i + 1]), ParsePieces(src, i + 2));
        }
      } else if src[i] == 0x27 {
        if i + 1 < |src| && src[i + 1] == 0x27 {
          DumpReader.PieceFirst(Doubled, ParsePieces(src, i + 2));
        }
      } else {
        DumpReader.PieceFirst(Raw(src[i]), ParsePieces(src, i + 1));
      }
    }
  }

  lemma NoPieces()
    ensures PiecesMeaning([]) == []
  {
  }
}
