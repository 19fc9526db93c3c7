/** The INSERT statements of a mysqldump file as byte strings: what they look like and what they mean. */
module DumpGrammar {
  import opened GoStrings
  import opened Wrappers

  const TAB: Byte := 0x09
  const NEWLINE: Byte := 0x0A
  const RETURN: Byte := 0x0D
  const SPACE: Byte := 0x20
  const DOUBLE_QUOTE: Byte := 0x22
  const QUOTE: Byte := 0x27
  const OPEN: Byte := 0x28
  const CLOSE: Byte := 0x29
  const COMMA: Byte := 0x2C
  const SEMICOLON: Byte := 0x3B
  const DIGIT_ZERO: Byte := 0x30
  const CAPITAL_Z: Byte := 0x5A
  const BACKSLASH: Byte := 0x5C
  const BACKTICK: Byte := 0x60
  const LETTER_B: Byte := 0x62
  const LETTER_N: Byte := 0x6E
  const LETTER_R: Byte := 0x72
  const LETTER_T: Byte := 0x74

  /** "INSERT INTO `" */
  const MARKER: Bytes := [0x49, 0x4E, 0x53, 0x45, 0x52, 0x54, 0x20, 0x49, 0x4E, 0x54, 0x4F, 0x20, 0x60]
  /** " VALUES" */
  const VALUES: Bytes := [0x20, 0x56, 0x41, 0x4C, 0x55, 0x45, 0x53]

  predicate IsBlank(b: Byte) {
    b == SPACE || b == NEWLINE || b == RETURN || b == TAB
  }

  predicate Blank(s: Bytes) {
    s == [] || (IsBlank(s[0]) && Blank(s[1..]))
  }

  datatype Error =
    | UnterminatedTableName | ExpectedValues
    | ExpectedOpen | TruncatedTuple | ExpectedCommaOrClose | MissingTerminator | ExpectedCommaOrSemicolon
    | TruncatedValue | UnterminatedString | TruncatedEscape | EmptyValue | UnsupportedLiteral

  /** What the text of an unquoted value stands for, if anything; no text is no value. */
  type Literals = literal: Bytes -> Result<Value, Error> | literal([]) == Err(EmptyValue)
    witness (text: Bytes) => Err(EmptyValue)

  // ------------------------------------------------------------------ values

  datatype Value = Null | Text(bytes: Bytes)

  /** One byte of a quoted string, as it is written. */
  datatype Piece = Raw(b: Byte) | Doubled | Escaped(c: Byte)

  /** A value as it is written; the text of a literal runs up to the comma or parenthesis that ends it. */
  datatype Token = Quoted(pieces: seq<Piece>) | Literal(text: Bytes, value: Value)

  datatype Cell = Cell(before: Bytes, token: Token, after: Bytes)

  datatype Row = Row(before: Bytes, cells: seq<Cell>, after: Bytes)

  datatype Statement = Statement(gap: Bytes, table: Bytes, rows: seq<Row>)

  datatype Dump = Dump(statements: seq<Statement>, tail: Bytes)

  /** What a backslash and a byte stand for; a byte above ASCII is widened to its UTF-8 encoding. */
  function Unescape(c: Byte): Bytes {
    if c == DIGIT_ZERO then [0x00]
    else if c == LETTER_B then [0x08]
    else if c == LETTER_N then [NEWLINE]
    else if c == LETTER_R then [RETURN]
    else if c == LETTER_T then [TAB]
    else if c == CAPITAL_Z then [0x1A]
    else if c < 0x80 then [c]
    else if c < 0xC0 then [0xC2, c]
    else [0xC3, c - 0x40]
  }

  function PieceMeaning(p: Piece): Bytes {
    match p
    case Raw(b) => [b]
    case Doubled => [QUOTE]
    case Escaped(c) => Unescape(c)
  }

  function PiecesMeaning(ps: seq<Piece>): Bytes {
    if ps == [] then [] else PieceMeaning(ps[0]) + PiecesMeaning(ps[1..])
  }

  function TokenMeaning(t: Token): Value {
    match t
    case Quoted(pieces) => Text(PiecesMeaning(pieces))
    case Literal(_, value) => value
  }

  function RowMeaning(cells: seq<Cell>): seq<Value> {
    seq(|cells|, i requires 0 <= i < |cells| => TokenMeaning(cells[i].token))
  }

  function RowsMeaning(rows: seq<Row>): seq<seq<Value>> {
    seq(|rows|, i requires 0 <= i < |rows| => RowMeaning(rows[i].cells))
  }

  /** Every table with a statement, and its rows in the order of the file. */
  function DumpMeaning(ss: seq<Statement>): map<Bytes, seq<seq<Value>>> {
    map table | table in TablesNamed(ss) :: TableRows(ss, table)
  }

  function TablesNamed(ss: seq<Statement>): set<Bytes> {
    set s | s in ss :: s.table
  }

  function TableRows(ss: seq<Statement>, table: Bytes): seq<seq<Value>> {
    if ss == [] then []
    else
      TableRows(ss[..|ss| - 1], table)
      + if ss[|ss| - 1].table == table then RowsMeaning(ss[|ss| - 1].rows) else []
  }

  // ------------------------------------------------------------------ how they are written

  function PrintPiece(p: Piece): Bytes {
    match p
    case Raw(b) => [b]
    case Doubled => [QUOTE, QUOTE]
    case Escaped(c) => [BACKSLASH, c]
  }

  /** A quoted string after its opening quote. */
  function PrintPieces(ps: seq<Piece>): Bytes {
    if ps == [] then [QUOTE] else PrintPiece(ps[0]) + PrintPieces(ps[1..])
  }

  function PrintToken(t: Token): Bytes {
    match t
    case Quoted(pieces) => [QUOTE] + PrintPieces(pieces)
    case Literal(text, _) => text
  }

  function PrintCell(c: Cell): Bytes {
    c.before + PrintToken(c.token) + c.after
  }

  /** A tuple after its opening parenthesis. */
  function PrintCells(cells: seq<Cell>): Bytes {
    if cells == [] then [CLOSE]
    else if |cells| == 1 then PrintCell(cells[0]) + [CLOSE]
    else PrintCell(cells[0]) + ([COMMA] + PrintCells(cells[1..]))
  }

  function PrintRow(r: Row): Bytes {
    r.before + [OPEN] + PrintCells(r.cells) + r.after
  }

  function PrintRows(rows: seq<Row>): Bytes {
    if rows == [] then [SEMICOLON]
    else if |rows| == 1 then PrintRow(rows[0]) + [SEMICOLON]
    else PrintRow(rows[0]) + ([COMMA] + PrintRows(rows[1..]))
  }

  function PrintStatement(s: Statement): Bytes {
    s.gap + MARKER + s.table + [BACKTICK] + VALUES + PrintRows(s.rows)
  }

  function PrintStatements(ss: seq<Statement>, tail: Bytes): Bytes {
    if ss == [] then tail else PrintStatement(ss[0]) + PrintStatements(ss[1..], tail)
  }

  // ------------------------------------------------------------------ what is well formed

  predicate PieceOk(p: Piece) {
    p.Raw? ==> p.b != QUOTE && p.b != BACKSLASH
  }

  predicate PiecesOk(ps: seq<Piece>) {
    forall p | p in ps :: PieceOk(p)
  }

  predicate Ends(b: Byte) {
    b == COMMA || b == CLOSE
  }

  predicate Endless(s: Bytes) {
    s == [] || (!Ends(s[0]) && Endless(s[1..]))
  }

  predicate LiteralOk(text: Bytes, literal: Literals) {
    text != [] && text[0] != QUOTE && !IsBlank(text[0]) && Endless(text) && literal(text).Ok?
  }

  predicate TokenOk(t: Token, literal: Literals) {
    match t
    case Quoted(pieces) => PiecesOk(pieces)
    case Literal(text, value) => LiteralOk(text, literal) && literal(text) == Ok(value)
  }

  /** The white space after a literal belongs to its text. */
  predicate CellOk(c: Cell, literal: Literals) {
    Blank(c.before) && TokenOk(c.token, literal) && Blank(c.after) && (c.token.Literal? ==> c.after == [])
  }

  predicate CellsOk(cells: seq<Cell>, literal: Literals) {
    cells != [] && forall c | c in cells :: CellOk(c, literal)
  }

  predicate RowOk(r: Row, literal: Literals) {
    Blank(r.before) && CellsOk(r.cells, literal) && Blank(r.after)
  }

  predicate RowsOk(rows: seq<Row>, literal: Literals) {
    rows != [] && forall r | r in rows :: RowOk(r, literal)
  }

  /** The needle stands in the text at a position. */
  predicate OccursAt(s: Bytes, needle: Bytes, i: nat) {
    i + |needle| <= |s| && s[i..i + |needle|] == needle
  }

  ghost predicate Absent(s: Bytes, needle: Bytes) {
    forall i: nat :: !OccursAt(s, needle, i)
  }

  ghost predicate StatementOk(s: Statement, literal: Literals) {
    Absent(s.gap, MARKER) && BACKTICK !in s.table && RowsOk(s.rows, literal)
  }

  ghost predicate StatementsOk(ss: seq<Statement>, literal: Literals) {
    forall s | s in ss :: StatementOk(s, literal)
  }

  ghost predicate DumpOk(d: Dump, literal: Literals) {
    StatementsOk(d.statements, literal) && Absent(d.tail, MARKER)
  }
}
