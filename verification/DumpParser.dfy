/** What the dump parser accepts, read from a position in a byte string, and that it is exactly the grammar. */
module DumpParser {
  import opened GoStrings
  import opened Wrappers
  import opened DumpGrammar

  /** What was read, and where reading goes on. */
  datatype Read<T> = Read(value: T, next: nat)

  /** A parse of the rest, with what was read before it in front. */
  function Prepended<T>(t: T, r: Result<Read<seq<T>>, Error>): Result<Read<seq<T>>, Error> {
    match r
    case Err(e) => Err(e)
    case Ok(p) => Ok(Read([t] + p.value, p.next))
  }

  // ------------------------------------------------------------------ values

  function SkipSpace(src: Bytes, i: nat): (n: nat)
    requires i <= |src|
    ensures i <= n <= |src|
    decreases |src| - i
  {
    if i < |src| && IsBlank(src[i]) then SkipSpace(src, i + 1) else i
  }

  function LiteralEnd(src: Bytes, i: nat): (n: nat)
    requires i <= |src|
    ensures i <= n <= |src|
    decreases |src| - i
  {
    if i < |src| && !Ends(src[i]) then LiteralEnd(src, i + 1) else i
  }

  /** A string after its opening quote. */
  function ParsePieces(src: Bytes, i: nat): (r: Result<Read<seq<Piece>>, Error>)
    requires i <= |src|
    ensures r.Ok? ==> i < r.value.next <= |src|
    decreases |src| - i
  {
    if i == |src| then Err(UnterminatedString)
    else if src[i] == BACKSLASH then
      if i + 1 == |src| then Err(TruncatedEscape) else Prepended(Escaped(src[i + 1]), ParsePieces(src, i + 2))
    else if src[i] == QUOTE then
      if i + 1 < |src| && src[i + 1] == QUOTE then Prepended(Doubled, ParsePieces(src, i + 2)) else Ok(Read([], i + 1))
    else Prepended(Raw(src[i]), ParsePieces(src, i + 1))
  }

  function ParseToken(src: Bytes, i: nat, literal: Literals): (r: Result<Read<Token>, Error>)
    requires i <= |src|
    ensures r.Ok? ==> i <= r.value.next <= |src|
  {
    if i == |src| then Err(TruncatedValue)
    else if src[i] == QUOTE then
      match ParsePieces(src, i + 1)
      case Err(e) => Err(e)
      case Ok(p) => Ok(Read(Quoted(p.value), p.next))
    else
      var n := LiteralEnd(src, i);
      match literal(src[i..n])
      case Err(e) => Err(e)
      case Ok(v) => Ok(Read(Literal(src[i..n], v), n))
  }

  // ------------------------------------------------------------------ tuples

  function ParseCell(src: Bytes, i: nat, literal: Literals): (r: Result<Read<Cell>, Error>)
    requires i <= |src|
    ensures r.Ok? ==> i <= r.value.next <= |src|
  {
    var start := SkipSpace(src, i);
    match ParseToken(src, start, literal)
    case Err(e) => Err(e)
    case Ok(p) =>
      var next := SkipSpace(src, p.next);
      Ok(Read(Cell(src[i..start], p.value, src[p.next..next]), next))
  }

  /** A tuple after its opening parenthesis. */
  function ParseCells(src: Bytes, i: nat, literal: Literals): (r: Result<Read<seq<Cell>>, Error>)
    requires i <= |src|
    ensures r.Ok? ==> i < r.value.next <= |src|
    decreases |src| - i
  {
    match ParseCell(src, i, literal)
    case Err(e) => Err(e)
    case Ok(p) =>
      if p.next == |src| then Err(TruncatedTuple)
      else if src[p.next] == COMMA then Prepended(p.value, ParseCells(src, p.next + 1, literal))
      else if src[p.next] == CLOSE then Ok(Read([p.value], p.next + 1))
      else Err(ExpectedCommaOrClose)
  }

  function ParseRow(src: Bytes, i: nat, literal: Literals): (r: Result<Read<Row>, Error>)
    requires i <= |src|
    ensures r.Ok? ==> i < r.value.next <= |src|
  {
    var open := SkipSpace(src, i);
    if open == |src| || src[open] != OPEN then Err(ExpectedOpen)
    else
      match ParseCells(src, open + 1, literal)
      case Err(e) => Err(e)
      case Ok(p) =>
        var next := SkipSpace(src, p.next);
        Ok(Read(Row(src[i..open], p.value, src[p.next..next]), next))
  }

  function ParseRows(src: Bytes, i: nat, literal: Literals): (r: Result<Read<seq<Row>>, Error>)
    requires i <= |src|
    ensures r.Ok? ==> i < r.value.next <= |src|
    decreases |src| - i
  {
    match ParseRow(src, i, literal)
    case Err(e) => Err(e)
    case Ok(p) =>
      if p.next == |src| then Err(MissingTerminator)
      else if src[p.next] == COMMA then Prepended(p.value, ParseRows(src, p.next + 1, literal))
      else if src[p.next] == SEMICOLON then Ok(Read([p.value], p.next + 1))
      else Err(ExpectedCommaOrSemicolon)
  }

  // ------------------------------------------------------------------ statements

  /** strings.Index, from an offset on. */
  function IndexFrom(src: Bytes, needle: Bytes, i: nat): (at: Option<nat>)
    requires i <= |src|
    ensures at.Some? ==> i <= at.value && OccursAt(src, needle, at.value)
    decreases |src| - i
  {
    if OccursAt(src, needle, i) then Some(i)
    else if i == |src| then None
    else IndexFrom(src, needle, i + 1)
  }

  function ParseStatement(src: Bytes, i: nat, j: nat, literal: Literals): (r: Result<Read<Statement>, Error>)
    requires i <= j && OccursAt(src, MARKER, j)
    ensures r.Ok? ==> i < r.value.next <= |src|
  {
    var name := j + |MARKER|;
    match IndexFrom(src, [BACKTICK], name)
    case None => Err(UnterminatedTableName)
    case Some(end) =>
      if !OccursAt(src, VALUES, end + 1) then Err(ExpectedValues)
      else
        match ParseRows(src, end + 1 + |VALUES|, literal)
        case Err(e) => Err(e)
        case Ok(p) => Ok(Read(Statement(src[i..j], src[name..end], p.value), p.next))
  }

  function ParseDump(src: Bytes, i: nat, literal: Literals): (r: Result<Dump, Error>)
    requires i <= |src|
    decreases |src| - i
  {
    match IndexFrom(src, MARKER, i)
    case None => Ok(Dump([], src[i..]))
    case Some(j) =>
      match ParseStatement(src, i, j, literal)
      case Err(e) => Err(e)
      case Ok(p) =>
        match ParseDump(src, p.next, literal)
        case Err(e) => Err(e)
        case Ok(d) => Ok(Dump([p.value] + d.statements, d.tail))
  }
}
