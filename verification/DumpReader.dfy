/** The dump parser's loops: an index into one byte string, and what has been read so far. */
module DumpReader {
  import opened GoStrings
  import opened Wrappers
  import opened DumpGrammar
  import Parser = DumpParser

  type Read<T> = Parser.Read<T>

  // ------------------------------------------------------------------ what each loop should give

  function Meant<T, U>(r: Result<Read<T>, Error>, meaning: T -> U): Result<Read<U>, Error> {
    match r
    case Err(e) => Err(e)
    case Ok(p) => Ok(Parser.Read(meaning(p.value), p.next))
  }

  /** What was read before, in front of what is still to be read. */
  function Joined<T>(acc: seq<T>, r: Result<Read<seq<T>>, Error>): Result<Read<seq<T>>, Error> {
    match r
    case Err(e) => Err(e)
    case Ok(p) => Ok(Parser.Read(acc + p.value, p.next))
  }

  lemma JoinedNothing<T>(r: Result<Read<seq<T>>, Error>)
    ensures Joined([], r) == r
  {
    assert r.Ok? ==> [] + r.value.value == r.value.value;
  }

  lemma JoinedTwice<T>(acc: seq<T>, more: seq<T>, r: Result<Read<seq<T>>, Error>)
    ensures Joined(acc, Joined(more, r)) == Joined(acc + more, r)
  {
    assert r.Ok? ==> acc + (more + r.value.value) == acc + more + r.value.value;
  }

  function StringAt(src: Bytes, i: nat): Result<Read<Bytes>, Error>
    requires i <= |src|
  {
    Meant(Parser.ParsePieces(src, i), PiecesMeaning)
  }

  function ValueAt(src: Bytes, i: nat, literal: Literals): Result<Read<Value>, Error>
    requires i <= |src|
  {
    Meant(Parser.ParseToken(src, i, literal), TokenMeaning)
  }

  function ValuesAt(src: Bytes, i: nat, literal: Literals): Result<Read<seq<Value>>, Error>
    requires i <= |src|
  {
    Meant(Parser.ParseCells(src, i, literal), RowMeaning)
  }

  function RowsAt(src: Bytes, i: nat, literal: Literals): Result<Read<seq<seq<Value>>>, Error>
    requires i <= |src|
  {
    Meant(Parser.ParseRows(src, i, literal), RowsMeaning)
  }

  function TablesOf(r: Result<Dump, Error>): Result<map<Bytes, seq<seq<Value>>>, Error> {
    match r
    case Err(e) => Err(e)
    case Ok(d) => Ok(DumpMeaning(d.statements))
  }

  lemma PieceFirst(p: Piece, r: Result<Read<seq<Piece>>, Error>)
    ensures Meant(Parser.Prepended(p, r), PiecesMeaning) == Joined(PieceMeaning(p), Meant(r, PiecesMeaning))
  {
    assert r.Ok? ==> ([p] + r.value.value)[1..] == r.value.value;
  }

  lemma CellFirst(c: Cell, r: Result<Read<seq<Cell>>, Error>)
    ensures Meant(Parser.Prepended(c, r), RowMeaning) == Joined([TokenMeaning(c.token)], Meant(r, RowMeaning))
  {
    if r.Ok? {
      assert RowMeaning([c] + r.value.value) == [TokenMeaning(c.token)] + RowMeaning(r.value.value);
    }
  }

  lemma RowFirst(row: Row, r: Result<Read<seq<Row>>, Error>)
    ensures Meant(Parser.Prepended(row, r), RowsMeaning) == Joined([RowMeaning(row.cells)], Meant(r, RowsMeaning))
  {
    if r.Ok? {
      assert RowsMeaning([row] + r.value.value) == [RowMeaning(row.cells)] + RowsMeaning(r.value.value);
    }
  }

  lemma OneCell(c: Cell)
    ensures RowMeaning([c]) == [TokenMeaning(c.token)]
  {
  }

  lemma OneRow(row: Row)
    ensures RowsMeaning([row]) == [RowMeaning(row.cells)]
  {
  }

  // ------------------------------------------------------------------ the loops

  method SkipSpace(src: Bytes, i: nat) returns (n: nat)
    requires i <= |src|
    ensures n == Parser.SkipSpace(src, i)
    ensures i <= n <= |src| && forall k | i <= k < n :: src[k] in {0x20, 0x0A, 0x0D, 0x09}
    ensures n < |src| ==> src[n] !in {0x20, 0x0A, 0x0D, 0x09}
  {
    n := i;
    while n < |src| && IsBlank(src[n])
      invariant n <= |src| && forall k | i <= k < n :: src[k] in {0x20, 0x0A, 0x0D, 0x09}
      invariant i <= n <= |src| && Parser.SkipSpace(src, i) == Parser.SkipSpace(src, n)
    {
      n := n + 1;
    }
  }

  method LiteralEnd(src: Bytes, i: nat) returns (n: nat)
    requires i <= |src|
    ensures n == Parser.LiteralEnd(src, i)
    ensures i <= n <= |src| && forall k | i <= k < n :: src[k] !in {0x2C, 0x29}
    ensures n < |src| ==> src[n] in {0x2C, 0x29}
  {
    n := i;
    while n < |src| && src[n] != COMMA && src[n] != CLOSE
      invariant n <= |src| && forall k | i <= k < n :: src[k] !in {0x2C, 0x29}
      invariant i <= n <= |src| && Parser.LiteralEnd(src, i) == Parser.LiteralEnd(src, n)
    {
      n := n + 1;
    }
  }

  /** A quoted string after its opening quote: escapes undone, a doubled quote one quote. */
  method ParseString(src: Bytes, start: nat) returns (r: Result<Read<Bytes>, Error>)
    requires start <= |src|
    ensures r == StringAt(src, start)
  {
    var i, b := start, [];
    JoinedNothing(StringAt(src, start));
    while true
      invariant start <= i <= |src|
      invariant StringAt(src, start) == Joined(b, StringAt(src, i))
      decreases |src| - i
    {
      if i >= |src| {
        return Err(UnterminatedString);
      }
      var c := src[i];
      if c == BACKSLASH {
        if i + 1 >= |src| {
          return Err(TruncatedEscape);
        }
        PieceFirst(Escaped(src[i + 1]), Parser.ParsePieces(src, i + 2));
        JoinedTwice(b, Unescape(src[i + 1]), StringAt(src, i + 2));
        b, i := b + Unescape(src[i + 1]), i + 2;
        continue;
      }
      if c == QUOTE {
        if i + 1 < |src| && src[i + 1] == QUOTE {
          PieceFirst(Doubled, Parser.ParsePieces(src, i + 2));
          JoinedTwice(b, [QUOTE], StringAt(src, i + 2));
          b, i := b + [QUOTE], i + 2;
          continue;
        }
        assert b + [] == b;
        return Ok(Parser.Read(b, i + 1));
      }
      PieceFirst(Raw(c), Parser.ParsePieces(src, i + 1));
      JoinedTwice(b, [c], StringAt(src, i + 1));
      b, i := b + [c], i + 1;
    }
  }

  method ParseValue(src: Bytes, i: nat, literal: Literals) returns (r: Result<Read<Value>, Error>)
    requires i <= |src|
    ensures r == ValueAt(src, i, literal)
  {
    if i >= |src| {
      return Err(TruncatedValue);
    }
    if src[i] == QUOTE {
      var s := ParseString(src, i + 1);
      match s {
        case Err(e) => return Err(e);
        case Ok(p) => return Ok(Parser.Read(Text(p.value), p.next));
      }
    }
    var n := LiteralEnd(src, i);
    var v := literal(src[i..n]);
    match v {
      case Err(e) => return Err(e);
      case Ok(value) => return Ok(Parser.Read(value, n));
    }
  }

  lemma ValueMeant(src: Bytes, i: nat, literal: Literals)
    requires i <= |src|
    ensures var t := Parser.ParseToken(src, i, literal);
      match ValueAt(src, i, literal)
      case Err(e) => t == Err(e)
      case Ok(v) => t.Ok? && v.value == TokenMeaning(t.value.value) && v.next == t.value.next
  {
  }

  /** A tuple after its opening parenthesis. */
  method ParseTuple(src: Bytes, start: nat, literal: Literals) returns (r: Result<Read<seq<Value>>, Error>)
    requires start <= |src|
    ensures r == ValuesAt(src, start, literal)
  {
    hide RowMeaning, TokenMeaning, Parser.ParseToken, Parser.SkipSpace, ValueAt;
    var i, row := start, [];
    JoinedNothing(ValuesAt(src, start, literal));
    while true
      invariant start <= i <= |src|
      invariant ValuesAt(src, start, literal) == Joined(row, ValuesAt(src, i, literal))
      decreases |src| - i
    {
      var at := SkipSpace(src, i);
      var v := ParseValue(src, at, literal);
      ValueMeant(src, at, literal);
      if v.Err? {
        return Err(v.error);
      }
      var next := SkipSpace(src, v.value.next);
      ghost var c := Parser.ParseCell(src, i, literal).value;
      if next >= |src| {
        return Err(TruncatedTuple);
      }
      if src[next] == COMMA {
        CellFirst(c.value, Parser.ParseCells(src, next + 1, literal));
        JoinedTwice(row, [v.value.value], ValuesAt(src, next + 1, literal));
        row, i := row + [v.value.value], next + 1;
        continue;
      }
      if src[next] == CLOSE {
        OneCell(c.value);
        return Ok(Parser.Read(row + [v.value.value], next + 1));
      }
      return Err(ExpectedCommaOrClose);
    }
  }

  lemma ValuesMeant(src: Bytes, i: nat, literal: Literals)
    requires i <= |src|
    ensures var t := Parser.ParseCells(src, i, literal);
      match ValuesAt(src, i, literal)
      case Err(e) => t == Err(e)
      case Ok(v) => t.Ok? && v.value == RowMeaning(t.value.value) && v.next == t.value.next
  {
  }

  /** The tuples of a statement, up to its semicolon. */
  method ParseTuples(src: Bytes, start: nat, literal: Literals) returns (r: Result<Read<seq<seq<Value>>>, Error>)
    requires start <= |src|
    ensures r == RowsAt(src, start, literal)
  {
    hide RowsMeaning, RowMeaning, Parser.ParseCells, Parser.SkipSpace, ValuesAt, IsBlank, TokenMeaning;
    var i, rows := start, [];
    JoinedNothing(RowsAt(src, start, literal));
    while true
      invariant start <= i <= |src|
      invariant RowsAt(src, start, literal) == Joined(rows, RowsAt(src, i, literal))
      decreases |src| - i
    {
      var open := SkipSpace(src, i);
      if open >= |src| || src[open] != OPEN {
        return Err(ExpectedOpen);
      }
      var row := ParseTuple(src, open + 1, literal);
      ValuesMeant(src, open + 1, literal);
      if row.Err? {
        return Err(row.error);
      }
      var next := SkipSpace(src, row.value.next);
      ghost var read := Parser.ParseRow(src, i, literal).value;
      if next >= |src| {
        return Err(MissingTerminator);
      }
      if src[next] == COMMA {
        RowFirst(read.value, Parser.ParseRows(src, next + 1, literal));
        JoinedTwice(rows, [row.value.value], RowsAt(src, next + 1, literal));
        rows, i := rows + [row.value.value], next + 1;
        continue;
      }
      if src[next] == SEMICOLON {
        OneRow(read.value);
        return Ok(Parser.Read(rows + [row.value.value], next + 1));
      }
      return Err(ExpectedCommaOrSemicolon);
    }
  }

  // ------------------------------------------------------------------ the file

  function After(done: seq<Statement>, r: Result<Dump, Error>): Result<Dump, Error> {
    match r
    case Err(e) => Err(e)
    case Ok(d) => Ok(Dump(done + d.statements, d.tail))
  }

  lemma AfterNothing(r: Result<Dump, Error>)
    ensures After([], r) == r
  {
    assert r.Ok? ==> [] + r.value.statements == r.value.statements;
  }

  lemma AfterOneMore(done: seq<Statement>, s: Statement, r: Result<Dump, Error>)
    ensures After(done, After([s], r)) == After(done + [s], r)
  {
    assert r.Ok? ==> done + ([s] + r.value.statements) == done + [s] + r.value.statements;
  }

  lemma OneMoreStatement(done: seq<Statement>, s: Statement)
    ensures
      var out := DumpMeaning(done);
      DumpMeaning(done + [s]) == out[s.table := (if s.table in out then out[s.table] else []) + RowsMeaning(s.rows)]
  {
    hide TableRows, RowsMeaning;
    TablesGrow(done, s);
    if s.table !in TablesNamed(done) {
      NoRowsElsewhere(done, s.table);
    }
    forall t: Bytes
      ensures TableRows(done + [s], t) == if s.table == t then TableRows(done, t) + RowsMeaning(s.rows) else TableRows(done, t)
    {
      RowsOfOneMore(done, s, t);
    }
  }

  lemma RowsOfOneMore(done: seq<Statement>, s: Statement, t: Bytes)
    ensures TableRows(done + [s], t) == if s.table == t then TableRows(done, t) + RowsMeaning(s.rows) else TableRows(done, t)
  {
    hide RowsMeaning;
    assert (done + [s])[..|done|] == done;
    assert TableRows(done, t) + [] == TableRows(done, t);
  }

  lemma TablesGrow(done: seq<Statement>, s: Statement)
    ensures TablesNamed(done + [s]) == TablesNamed(done) + {s.table}
  {
    assert s in done + [s] && forall x | x in done :: x in done + [s];
  }

  lemma {:induction false} NoRowsElsewhere(ss: seq<Statement>, table: Bytes)
    requires forall s | s in ss :: s.table != table
    ensures TableRows(ss, table) == []
  {
    if ss != [] {
      NoRowsElsewhere(ss[..|ss| - 1], table);
      assert ss[|ss| - 1] in ss;
    }
  }

  /** Every table's rows in file order, or the error of the first statement not understood. */
  method ParseDump(src: Bytes, literal: Literals) returns (r: Result<map<Bytes, seq<seq<Value>>>, Error>)
    ensures r == TablesOf(Parser.ParseDump(src, 0, literal))
  {
    hide DumpMeaning, OccursAt, RowsMeaning, Parser.ParseRows, Parser.IndexFrom;
    var out: map<Bytes, seq<seq<Value>>> := map[];
    var i := 0;
    ghost var done: seq<Statement> := [];
    AfterNothing(Parser.ParseDump(src, 0, literal));
    NothingMeansNothing();
    while true
      invariant i <= |src| && out == DumpMeaning(done)
      invariant Parser.ParseDump(src, 0, literal) == After(done, Parser.ParseDump(src, i, literal))
      decreases |src| - i
    {
      var j := Parser.IndexFrom(src, MARKER, i);
      if j.None? {
        assert done + [] == done;
        break;
      }
      ghost var s := Parser.ParseStatement(src, i, j.value, literal);
      var name := j.value + |MARKER|;
      Within(src, MARKER, j.value);
      var end := Parser.IndexFrom(src, [BACKTICK], name);
      if end.None? {
        return Err(UnterminatedTableName);
      }
      Within(src, [BACKTICK], end.value);
      var table := src[name..end.value];
      if !OccursAt(src, VALUES, end.value + 1) {
        return Err(ExpectedValues);
      }
      Within(src, VALUES, end.value + 1);
      var rows := ParseTuples(src, end.value + 1 + |VALUES|, literal);
      if rows.Err? {
        return Err(rows.error);
      }
      OneMoreStatement(done, s.value.value);
      AfterOneMore(done, s.value.value, Parser.ParseDump(src, s.value.next, literal));
      out := out[table := (if table in out then out[table] else []) + rows.value.value];
      done := done + [s.value.value];
      i := rows.value.next;
    }
    return Ok(out);
  }

  lemma Within(src: Bytes, needle: Bytes, i: nat)
    requires OccursAt(src, needle, i)
    ensures i + |needle| <= |src|
  {
  }

  lemma NothingMeansNothing()
    ensures DumpMeaning([]) == map[]
  {
  }
}
