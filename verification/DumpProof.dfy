/** The dump parser accepts exactly the well-formed dumps, and reads each in the one way it can be read. */
module DumpProof {
  import opened GoStrings
  import opened Wrappers
  import opened DumpGrammar
  import opened DumpParser

  lemma OccursSplit(src: Bytes, a: Bytes, b: Bytes, i: nat)
    ensures OccursAt(src, a + b, i) <==> OccursAt(src, a, i) && OccursAt(src, b, i + |a|)
  {
    var n := i + |a| + |b|;
    if n <= |src| {
      assert src[i..n] == src[i..i + |a|] + src[i + |a|..n];
      assert (a + b)[..|a|] == a && (a + b)[|a|..] == b;
      assert src[i..n][..|a|] == src[i..i + |a|] && src[i..n][|a|..] == src[i + |a|..n];
    }
  }

  lemma OccursOne(src: Bytes, b: Byte, i: nat)
    ensures OccursAt(src, [b], i) <==> i < |src| && src[i] == b
  {
  }

  lemma OccursTwo(src: Bytes, b: Byte, c: Byte, i: nat)
    ensures OccursAt(src, [b, c], i) <==> i + 1 < |src| && src[i] == b && src[i + 1] == c
  {
    assert [b, c] == [b] + [c];
    OccursSplit(src, [b], [c], i);
  }

  lemma OccursTail(src: Bytes, text: Bytes, i: nat)
    requires text != [] && OccursAt(src, text, i)
    ensures src[i] == text[0] && OccursAt(src, text[1..], i + 1)
  {
    assert text == [text[0]] + text[1..];
    OccursSplit(src, [text[0]], text[1..], i);
  }

  lemma OccursIsSlice(src: Bytes, needle: Bytes, i: nat)
    requires OccursAt(src, needle, i)
    ensures i + |needle| <= |src| && src[i..i + |needle|] == needle
  {
  }

  lemma SliceOccurs(src: Bytes, i: nat, j: nat)
    requires i <= j <= |src|
    ensures OccursAt(src, src[i..j], i)
  {
  }

  // ------------------------------------------------------------------ blanks and literals

  lemma {:induction false} SkipStops(src: Bytes, i: nat)
    requires i <= |src|
    ensures Blank(src[i..SkipSpace(src, i)])
    ensures SkipSpace(src, i) < |src| ==> !IsBlank(src[SkipSpace(src, i)])
    decreases |src| - i
  {
    if i < |src| && IsBlank(src[i]) {
      SkipStops(src, i + 1);
      assert src[i..SkipSpace(src, i)][1..] == src[i + 1..SkipSpace(src, i)];
    }
  }

  lemma NothingToSkip(src: Bytes, i: nat)
    requires i <= |src| && (i < |src| ==> !IsBlank(src[i]))
    ensures SkipSpace(src, i) == i
  {
  }

  lemma {:induction false} SkipReaches(src: Bytes, text: Bytes, i: nat)
    requires Blank(text) && OccursAt(src, text, i)
    requires i + |text| < |src| ==> !IsBlank(src[i + |text|])
    ensures SkipSpace(src, i) == i + |text|
    decreases |text|
  {
    if text != [] {
      OccursTail(src, text, i);
      SkipReaches(src, text[1..], i + 1);
    }
  }

  lemma {:induction false} LiteralStops(src: Bytes, i: nat)
    requires i <= |src|
    ensures Endless(src[i..LiteralEnd(src, i)])
    ensures LiteralEnd(src, i) < |src| ==> Ends(src[LiteralEnd(src, i)])
    decreases |src| - i
  {
    if i < |src| && !Ends(src[i]) {
      LiteralStops(src, i + 1);
      assert src[i..LiteralEnd(src, i)][1..] == src[i + 1..LiteralEnd(src, i)];
    }
  }

  lemma {:induction false} LiteralReaches(src: Bytes, text: Bytes, i: nat)
    requires Endless(text) && OccursAt(src, text, i)
    requires i + |text| < |src| ==> Ends(src[i + |text|])
    ensures LiteralEnd(src, i) == i + |text|
    decreases |text|
  {
    if text != [] {
      OccursTail(src, text, i);
      LiteralReaches(src, text[1..], i + 1);
    }
  }

  // ------------------------------------------------------------------ what is read is what is written

  lemma PiecesCons(src: Bytes, p: Piece, ps: seq<Piece>, i: nat)
    ensures |PrintPieces([p] + ps)| == |PrintPiece(p)| + |PrintPieces(ps)|
    ensures OccursAt(src, PrintPieces([p] + ps), i) <==>
      OccursAt(src, PrintPiece(p), i) && OccursAt(src, PrintPieces(ps), i + |PrintPiece(p)|)
  {
    assert ([p] + ps)[1..] == ps;
    OccursSplit(src, PrintPiece(p), PrintPieces(ps), i);
  }

  /** The piece that begins where a string has not ended. */
  function PieceAt(src: Bytes, i: nat): Piece
    requires i < |src|
  {
    if src[i] == BACKSLASH && i + 1 < |src| then Escaped(src[i + 1])
    else if src[i] == QUOTE then Doubled
    else Raw(src[i])
  }

  predicate StringEnds(src: Bytes, i: nat)
    requires i < |src|
  {
    src[i] == QUOTE && (i + 1 == |src| || src[i + 1] != QUOTE)
  }

  lemma PieceSpelled(src: Bytes, i: nat)
    requires i < |src| && ParsePieces(src, i).Ok? && !StringEnds(src, i)
    ensures var p := PieceAt(src, i);
      && PieceOk(p) && OccursAt(src, PrintPiece(p), i)
      && ParsePieces(src, i) == Prepended(p, ParsePieces(src, i + |PrintPiece(p)|))
  {
    match PieceAt(src, i)
    case Raw(b) => OccursOne(src, b, i);
    case Doubled => OccursTwo(src, QUOTE, QUOTE, i);
    case Escaped(c) => OccursTwo(src, BACKSLASH, c, i);
  }

  lemma {:induction false} PiecesSpelled(src: Bytes, i: nat)
    requires i <= |src| && ParsePieces(src, i).Ok?
    ensures var p := ParsePieces(src, i).value;
      PiecesOk(p.value) && OccursAt(src, PrintPieces(p.value), i) && p.next == i + |PrintPieces(p.value)|
      && (p.next < |src| ==> src[p.next] != QUOTE)
    decreases |src| - i
  {
    if StringEnds(src, i) {
      OccursOne(src, QUOTE, i);
    } else {
      PieceSpelled(src, i);
      var p := PieceAt(src, i);
      PiecesSpelled(src, i + |PrintPiece(p)|);
      PiecesCons(src, p, ParsePieces(src, i + |PrintPiece(p)|).value.value, i);
    }
  }

  lemma HeadAndTail<T>(s: seq<T>, next: nat)
    requires s != []
    ensures Prepended(s[0], Ok(Read(s[1..], next))) == Ok(Read(s, next))
  {
    assert s == [s[0]] + s[1..];
  }

  lemma {:induction false} PiecesReached(src: Bytes, ps: seq<Piece>, i: nat, n: nat)
    requires PiecesOk(ps) && OccursAt(src, PrintPieces(ps), i) && n == i + |PrintPieces(ps)|
    requires n < |src| ==> src[n] != QUOTE
    ensures ParsePieces(src, i) == Ok(Read(ps, n))
    decreases |ps|
  {
    if ps == [] {
      OccursOne(src, QUOTE, i);
    } else {
      OccursSplit(src, PrintPiece(ps[0]), PrintPieces(ps[1..]), i);
      PiecesReached(src, ps[1..], i + |PrintPiece(ps[0])|, n);
      PieceReached(src, ps[0], i);
      HeadAndTail(ps, n);
    }
  }

  lemma PieceReached(src: Bytes, p: Piece, i: nat)
    requires PieceOk(p) && OccursAt(src, PrintPiece(p), i)
    ensures ParsePieces(src, i) == Prepended(p, ParsePieces(src, i + |PrintPiece(p)|))
  {
    match p
    case Raw(b) => OccursOne(src, b, i);
    case Doubled => OccursTwo(src, QUOTE, QUOTE, i);
    case Escaped(c) => OccursTwo(src, BACKSLASH, c, i);
  }

  /** A quoted value is not followed by a quote; a literal is followed by what ends it, or by nothing. */
  predicate Follows(src: Bytes, t: Token, n: nat) {
    n < |src| ==> if t.Quoted? then src[n] != QUOTE else Ends(src[n])
  }

  predicate StartsToken(src: Bytes, i: nat) {
    i < |src| ==> !IsBlank(src[i])
  }

  lemma LiteralSpelled(src: Bytes, i: nat, literal: Literals)
    requires i < |src| && src[i] != QUOTE && !IsBlank(src[i]) && literal(src[i..LiteralEnd(src, i)]).Ok?
    ensures LiteralOk(src[i..LiteralEnd(src, i)], literal)
    ensures LiteralEnd(src, i) < |src| ==> Ends(src[LiteralEnd(src, i)])
  {
    var n := LiteralEnd(src, i);
    LiteralStops(src, i);
    assert src[i..n] != [] ==> src[i..n][0] == src[i];
  }

  lemma TokenSpelled(src: Bytes, i: nat, literal: Literals)
    requires i <= |src| && StartsToken(src, i) && ParseToken(src, i, literal).Ok?
    ensures var p := ParseToken(src, i, literal).value;
      && TokenOk(p.value, literal) && Follows(src, p.value, p.next)
      && OccursAt(src, PrintToken(p.value), i) && p.next == i + |PrintToken(p.value)|
  {
    if src[i] == QUOTE {
      PiecesSpelled(src, i + 1);
      OccursOne(src, QUOTE, i);
      OccursSplit(src, [QUOTE], PrintPieces(ParsePieces(src, i + 1).value.value), i);
    } else {
      LiteralSpelled(src, i, literal);
      SliceOccurs(src, i, LiteralEnd(src, i));
    }
  }

  lemma TokenReached(src: Bytes, t: Token, i: nat, literal: Literals)
    requires TokenOk(t, literal) && OccursAt(src, PrintToken(t), i) && Follows(src, t, i + |PrintToken(t)|)
    ensures ParseToken(src, i, literal) == Ok(Read(t, i + |PrintToken(t)|))
    ensures i < |src| && !IsBlank(src[i])
  {
    var n := i + |PrintToken(t)|;
    match t
    case Quoted(pieces) =>
      OccursSplit(src, [QUOTE], PrintPieces(pieces), i);
      OccursOne(src, QUOTE, i);
      PiecesReached(src, pieces, i + 1, n);
    case Literal(text, _) =>
      LiteralReaches(src, text, i);
  }

  // ------------------------------------------------------------------ tuples

  lemma Occurs3(src: Bytes, a: Bytes, b: Bytes, c: Bytes, i: nat)
    ensures OccursAt(src, a + b + c, i) <==>
      OccursAt(src, a, i) && OccursAt(src, b, i + |a|) && OccursAt(src, c, i + |a| + |b|)
  {
    OccursSplit(src, a + b, c, i);
    OccursSplit(src, a, b, i);
  }

  lemma CellSpelled(src: Bytes, i: nat, literal: Literals)
    requires i <= |src| && ParseCell(src, i, literal).Ok?
    ensures var p := ParseCell(src, i, literal).value;
      CellOk(p.value, literal) && OccursAt(src, PrintCell(p.value), i) && p.next == i + |PrintCell(p.value)|
  {
    hide OccursAt, SkipSpace, Blank, ParseToken, PrintToken, TokenOk;
    var start := SkipSpace(src, i);
    var t := ParseToken(src, start, literal).value;
    var next := SkipSpace(src, t.next);
    SkipStops(src, i);
    TokenSpelled(src, start, literal);
    SkipStops(src, t.next);
    if t.value.Literal? {
      NothingToSkip(src, t.next);
    }
    SliceOccurs(src, i, start);
    SliceOccurs(src, t.next, next);
    Occurs3(src, src[i..start], PrintToken(t.value), src[t.next..next], i);
  }

  lemma AfterToken(src: Bytes, c: Cell, stop: nat, literal: Literals)
    requires CellOk(c, literal) && OccursAt(src, c.after, stop)
    requires stop + |c.after| < |src| && Ends(src[stop + |c.after|])
    ensures Follows(src, c.token, stop)
  {
    if c.after != [] {
      assert src[stop..stop + |c.after|][0] == src[stop];
    }
  }

  lemma CellReached(src: Bytes, c: Cell, i: nat, literal: Literals)
    requires CellOk(c, literal) && OccursAt(src, PrintCell(c), i)
    requires var n := i + |PrintCell(c)|; n < |src| && Ends(src[n])
    ensures ParseCell(src, i, literal) == Ok(Read(c, i + |PrintCell(c)|))
  {
    hide SkipSpace, ParseToken, PrintToken, TokenOk, Blank, OccursAt;
    var start := i + |c.before|;
    var stop := start + |PrintToken(c.token)|;
    Occurs3(src, c.before, PrintToken(c.token), c.after, i);
    OccursIsSlice(src, c.before, i);
    OccursIsSlice(src, c.after, stop);
    AfterToken(src, c, stop, literal);
    TokenReached(src, c.token, start, literal);
    SkipReaches(src, c.before, i);
    SkipReaches(src, c.after, stop);
  }

  lemma CellsCons(src: Bytes, c: Cell, cells: seq<Cell>, i: nat)
    requires cells != []
    ensures |PrintCells([c] + cells)| == |PrintCell(c)| + 1 + |PrintCells(cells)|
    ensures var n := i + |PrintCell(c)|;
      OccursAt(src, PrintCells([c] + cells), i) <==>
        OccursAt(src, PrintCell(c), i) && n < |src| && src[n] == COMMA && OccursAt(src, PrintCells(cells), n + 1)
  {
    hide PrintCell;
    assert ([c] + cells)[1..] == cells;
    OccursSplit(src, PrintCell(c), [COMMA] + PrintCells(cells), i);
    OccursSplit(src, [COMMA], PrintCells(cells), i + |PrintCell(c)|);
    OccursOne(src, COMMA, i + |PrintCell(c)|);
  }

  lemma CellsLast(src: Bytes, c: Cell, i: nat)
    ensures |PrintCells([c])| == |PrintCell(c)| + 1
    ensures var n := i + |PrintCell(c)|;
      OccursAt(src, PrintCells([c]), i) <==> OccursAt(src, PrintCell(c), i) && n < |src| && src[n] == CLOSE
  {
    OccursSplit(src, PrintCell(c), [CLOSE], i);
    OccursOne(src, CLOSE, i + |PrintCell(c)|);
  }

  lemma {:induction false} CellsSpelled(src: Bytes, i: nat, literal: Literals)
    requires i <= |src| && ParseCells(src, i, literal).Ok?
    ensures var p := ParseCells(src, i, literal).value;
      CellsOk(p.value, literal) && OccursAt(src, PrintCells(p.value), i) && p.next == i + |PrintCells(p.value)|
    decreases |src| - i
  {
    hide OccursAt, ParseCell, CellOk, PrintCell, PrintCells;
    CellSpelled(src, i, literal);
    var p := ParseCell(src, i, literal).value;
    if src[p.next] == COMMA {
      CellsSpelled(src, p.next + 1, literal);
      CellsCons(src, p.value, ParseCells(src, p.next + 1, literal).value.value, i);
    } else {
      CellsLast(src, p.value, i);
    }
  }

  lemma CellsMore(src: Bytes, cells: seq<Cell>, i: nat)
    requires |cells| > 1
    ensures |PrintCells(cells)| == |PrintCell(cells[0])| + 1 + |PrintCells(cells[1..])|
    ensures var n := i + |PrintCell(cells[0])|;
      OccursAt(src, PrintCells(cells), i) ==>
        OccursAt(src, PrintCell(cells[0]), i) && n < |src| && src[n] == COMMA && OccursAt(src, PrintCells(cells[1..]), n + 1)
  {
    hide OccursAt, PrintCell;
    assert cells == [cells[0]] + cells[1..];
    CellsCons(src, cells[0], cells[1..], i);
  }

  lemma CellsOne(src: Bytes, cells: seq<Cell>, i: nat)
    requires |cells| == 1
    ensures |PrintCells(cells)| == |PrintCell(cells[0])| + 1
    ensures var n := i + |PrintCell(cells[0])|;
      OccursAt(src, PrintCells(cells), i) ==> OccursAt(src, PrintCell(cells[0]), i) && n < |src| && src[n] == CLOSE
  {
    CellsLast(src, cells[0], i);
  }

  lemma {:induction false} CellsReached(src: Bytes, cells: seq<Cell>, i: nat, literal: Literals)
    requires CellsOk(cells, literal) && OccursAt(src, PrintCells(cells), i)
    ensures ParseCells(src, i, literal) == Ok(Read(cells, i + |PrintCells(cells)|))
    decreases |cells|
  {
    hide OccursAt, ParseCell, CellOk, PrintCell, PrintCells;
    assert cells[0] in cells;
    if |cells| == 1 {
      assert cells == [cells[0]];
      CellsOne(src, cells, i);
      CellReached(src, cells[0], i, literal);
    } else {
      CellsMore(src, cells, i);
      CellReached(src, cells[0], i, literal);
      CellsReached(src, cells[1..], i + |PrintCell(cells[0])| + 1, literal);
      HeadAndTail(cells, i + |PrintCells(cells)|);
    }
  }

  lemma RowSplit(src: Bytes, r: Row, i: nat)
    ensures |PrintRow(r)| == |r.before| + 1 + |PrintCells(r.cells)| + |r.after|
    ensures var open := i + |r.before|;
      OccursAt(src, PrintRow(r), i) <==>
        && OccursAt(src, r.before, i) && open < |src| && src[open] == OPEN
        && OccursAt(src, PrintCells(r.cells), open + 1)
        && OccursAt(src, r.after, open + 1 + |PrintCells(r.cells)|)
  {
    OccursOne(src, OPEN, i + |r.before|);
    Occurs3(src, r.before, [OPEN], PrintCells(r.cells), i);
    OccursSplit(src, r.before + [OPEN] + PrintCells(r.cells), r.after, i);
  }

  lemma RowJoined(src: Bytes, i: nat, open: nat, cells: seq<Cell>, stop: nat, next: nat)
    requires i <= open < |src| && src[open] == OPEN
    requires OccursAt(src, PrintCells(cells), open + 1) && stop == open + 1 + |PrintCells(cells)| <= next <= |src|
    ensures var r := Row(src[i..open], cells, src[stop..next]);
      OccursAt(src, PrintRow(r), i) && next == i + |PrintRow(r)|
  {
    SliceOccurs(src, i, open);
    SliceOccurs(src, stop, next);
    RowSplit(src, Row(src[i..open], cells, src[stop..next]), i);
  }

  lemma RowSpelled(src: Bytes, i: nat, literal: Literals)
    requires i <= |src| && ParseRow(src, i, literal).Ok?
    ensures var p := ParseRow(src, i, literal).value;
      OccursAt(src, PrintRow(p.value), i) && p.next == i + |PrintRow(p.value)|
  {
    var open := SkipSpace(src, i);
    var p := ParseCells(src, open + 1, literal).value;
    CellsSpelled(src, open + 1, literal);
    RowJoined(src, i, open, p.value, p.next, SkipSpace(src, p.next));
  }

  lemma RowSound(src: Bytes, i: nat, literal: Literals)
    requires i <= |src| && ParseRow(src, i, literal).Ok?
    ensures RowOk(ParseRow(src, i, literal).value.value, literal)
  {
    var open := SkipSpace(src, i);
    SkipStops(src, i);
    CellsSpelled(src, open + 1, literal);
    SkipStops(src, ParseCells(src, open + 1, literal).value.next);
  }

  lemma RowReached(src: Bytes, r: Row, i: nat, literal: Literals)
    requires RowOk(r, literal) && OccursAt(src, PrintRow(r), i)
    requires var n := i + |PrintRow(r)|; n < |src| && !IsBlank(src[n])
    ensures ParseRow(src, i, literal) == Ok(Read(r, i + |PrintRow(r)|))
  {
    hide OccursAt, ParseCells, CellsOk, PrintCells, PrintRow, SkipSpace, Blank;
    var open := i + |r.before|;
    RowSplit(src, r, i);
    OccursIsSlice(src, r.before, i);
    OccursIsSlice(src, r.after, open + 1 + |PrintCells(r.cells)|);
    SkipReaches(src, r.before, i);
    CellsReached(src, r.cells, open + 1, literal);
    SkipReaches(src, r.after, open + 1 + |PrintCells(r.cells)|);
  }

  lemma RowsCons(src: Bytes, r: Row, rows: seq<Row>, i: nat)
    requires rows != []
    ensures |PrintRows([r] + rows)| == |PrintRow(r)| + 1 + |PrintRows(rows)|
    ensures var n := i + |PrintRow(r)|;
      OccursAt(src, PrintRows([r] + rows), i) <==>
        OccursAt(src, PrintRow(r), i) && n < |src| && src[n] == COMMA && OccursAt(src, PrintRows(rows), n + 1)
  {
    hide PrintRow;
    assert ([r] + rows)[1..] == rows;
    OccursSplit(src, PrintRow(r), [COMMA] + PrintRows(rows), i);
    OccursSplit(src, [COMMA], PrintRows(rows), i + |PrintRow(r)|);
    OccursOne(src, COMMA, i + |PrintRow(r)|);
  }

  lemma RowsLast(src: Bytes, r: Row, i: nat)
    ensures |PrintRows([r])| == |PrintRow(r)| + 1
    ensures var n := i + |PrintRow(r)|;
      OccursAt(src, PrintRows([r]), i) <==> OccursAt(src, PrintRow(r), i) && n < |src| && src[n] == SEMICOLON
  {
    OccursSplit(src, PrintRow(r), [SEMICOLON], i);
    OccursOne(src, SEMICOLON, i + |PrintRow(r)|);
  }

  lemma {:induction false} RowsSpelled(src: Bytes, i: nat, literal: Literals)
    requires i <= |src| && ParseRows(src, i, literal).Ok?
    ensures var p := ParseRows(src, i, literal).value;
      RowsOk(p.value, literal) && OccursAt(src, PrintRows(p.value), i) && p.next == i + |PrintRows(p.value)|
    decreases |src| - i
  {
    hide OccursAt, ParseRow, RowOk, PrintRow, PrintRows;
    RowSpelled(src, i, literal);
    RowSound(src, i, literal);
    var p := ParseRow(src, i, literal).value;
    if src[p.next] == COMMA {
      RowsSpelled(src, p.next + 1, literal);
      RowsCons(src, p.value, ParseRows(src, p.next + 1, literal).value.value, i);
    } else {
      RowsLast(src, p.value, i);
    }
  }

  lemma RowsMore(src: Bytes, rows: seq<Row>, i: nat)
    requires |rows| > 1
    ensures |PrintRows(rows)| == |PrintRow(rows[0])| + 1 + |PrintRows(rows[1..])|
    ensures var n := i + |PrintRow(rows[0])|;
      OccursAt(src, PrintRows(rows), i) ==>
        OccursAt(src, PrintRow(rows[0]), i) && n < |src| && src[n] == COMMA && OccursAt(src, PrintRows(rows[1..]), n + 1)
  {
    hide OccursAt, PrintRow;
    assert rows == [rows[0]] + rows[1..];
    RowsCons(src, rows[0], rows[1..], i);
  }

  lemma RowsOne(src: Bytes, rows: seq<Row>, i: nat)
    requires |rows| == 1
    ensures |PrintRows(rows)| == |PrintRow(rows[0])| + 1
    ensures var n := i + |PrintRow(rows[0])|;
      OccursAt(src, PrintRows(rows), i) ==> OccursAt(src, PrintRow(rows[0]), i) && n < |src| && src[n] == SEMICOLON
  {
    RowsLast(src, rows[0], i);
  }

  lemma {:induction false} RowsReached(src: Bytes, rows: seq<Row>, i: nat, literal: Literals)
    requires RowsOk(rows, literal) && OccursAt(src, PrintRows(rows), i)
    ensures ParseRows(src, i, literal) == Ok(Read(rows, i + |PrintRows(rows)|))
    decreases |rows|
  {
    hide OccursAt, ParseRow, RowOk, PrintRow, PrintRows;
    assert rows[0] in rows;
    if |rows| == 1 {
      assert rows == [rows[0]];
      RowsOne(src, rows, i);
      RowReached(src, rows[0], i, literal);
    } else {
      RowsMore(src, rows, i);
      RowReached(src, rows[0], i, literal);
      RowsReached(src, rows[1..], i + |PrintRow(rows[0])| + 1, literal);
      HeadAndTail(rows, i + |PrintRows(rows)|);
    }
  }

  // ------------------------------------------------------------------ statements

  lemma {:induction false} IndexIsFirst(src: Bytes, needle: Bytes, i: nat)
    requires i <= |src|
    ensures var at := IndexFrom(src, needle, i);
      forall k: nat | i <= k && (at.None? || k < at.value) :: !OccursAt(src, needle, k)
    decreases |src| - i
  {
    hide OccursAt;
    if !OccursAt(src, needle, i) && i < |src| {
      IndexIsFirst(src, needle, i + 1);
    } else if !OccursAt(src, needle, i) {
      forall k: nat | i <= k
        ensures !OccursAt(src, needle, k)
      {
        NothingPastTheEnd(src, needle, i, k);
      }
    }
  }

  lemma NothingPastTheEnd(src: Bytes, needle: Bytes, i: nat, k: nat)
    requires |src| <= i <= k && !OccursAt(src, needle, i)
    ensures !OccursAt(src, needle, k)
  {
  }

  lemma {:induction false} IndexReaches(src: Bytes, needle: Bytes, i: nat, at: nat)
    requires i <= at <= |src| && OccursAt(src, needle, at)
    requires forall k: nat | i <= k < at :: !OccursAt(src, needle, k)
    ensures IndexFrom(src, needle, i) == Some(at)
    decreases |src| - i
  {
    hide OccursAt;
    if i < at {
      IndexReaches(src, needle, i + 1, at);
    }
  }

  lemma StatementSplit(src: Bytes, s: Statement, i: nat)
    ensures |PrintStatement(s)| == |s.gap| + |MARKER| + |s.table| + 1 + |VALUES| + |PrintRows(s.rows)|
    ensures var name := i + |s.gap| + |MARKER|; var end := name + |s.table|;
      OccursAt(src, PrintStatement(s), i) <==>
        && OccursAt(src, s.gap, i) && OccursAt(src, MARKER, i + |s.gap|) && OccursAt(src, s.table, name)
        && OccursAt(src, [BACKTICK], end) && OccursAt(src, VALUES, end + 1)
        && OccursAt(src, PrintRows(s.rows), end + 1 + |VALUES|)
  {
    hide OccursAt, PrintRows;
    Occurs3(src, s.gap, MARKER, s.table, i);
    Occurs3(src, s.gap + MARKER + s.table, [BACKTICK], VALUES, i);
    OccursSplit(src, s.gap + MARKER + s.table + [BACKTICK] + VALUES, PrintRows(s.rows), i);
  }

  lemma OccursInSlice(src: Bytes, needle: Bytes, i: nat, j: nat, k: nat)
    requires i <= k && k + |needle| <= j <= |src|
    ensures OccursAt(src[i..j], needle, k - i) <==> OccursAt(src, needle, k)
  {
    var a, b := src[i..j][k - i..k - i + |needle|], src[k..k + |needle|];
    assert |a| == |b| && forall m | 0 <= m < |a| :: a[m] == b[m];
  }

  /** A needle that is not in a stretch of the text is not in that stretch as a string. */
  lemma AbsentSlice(src: Bytes, needle: Bytes, i: nat, j: nat)
    requires i <= j <= |src| && forall k: nat | i <= k < j :: !OccursAt(src, needle, k)
    requires needle != []
    ensures Absent(src[i..j], needle)
  {
    forall k: nat
      ensures !OccursAt(src[i..j], needle, k)
    {
      if OccursAt(src[i..j], needle, k) {
        OccursInSlice(src, needle, i, j, i + k);
      }
    }
  }

  /** The marker's last byte is its only backtick, so no marker overlaps the next. */
  lemma NoMarkerBefore(src: Bytes, gap: Bytes, i: nat, k: nat)
    requires Absent(gap, MARKER) && OccursAt(src, gap, i) && OccursAt(src, MARKER, i + |gap|)
    requires i <= k < i + |gap|
    ensures !OccursAt(src, MARKER, k)
  {
    var j := i + |gap|;
    if OccursAt(src, MARKER, k) {
      var last := k + |MARKER| - 1;
      assert src[last] == src[k..k + |MARKER|][|MARKER| - 1] == BACKTICK;
      if last < j {
        OccursInSlice(src, MARKER, i, j, k);
      }
    }
  }

  lemma NoMarkerAfter(src: Bytes, i: nat, k: nat)
    requires i <= k && i <= |src| && Absent(src[i..], MARKER)
    ensures !OccursAt(src, MARKER, k)
  {
    assert src[i..|src|] == src[i..];
    if OccursAt(src, MARKER, k) {
      OccursInSlice(src, MARKER, i, |src|, k);
    }
  }

  lemma NoBacktick(src: Bytes, i: nat, j: nat)
    requires i <= j <= |src|
    ensures BACKTICK !in src[i..j] <==> forall k: nat | i <= k < j :: !OccursAt(src, [BACKTICK], k)
  {
    forall k: nat
      ensures OccursAt(src, [BACKTICK], k) <==> k < |src| && src[k] == BACKTICK
    {
      OccursOne(src, BACKTICK, k);
    }
    if k: nat :| i <= k < j && OccursAt(src, [BACKTICK], k) {
      assert src[i..j][k - i] == BACKTICK;
    }
  }

  lemma StatementSpelled(src: Bytes, i: nat, j: nat, literal: Literals)
    requires i <= j && OccursAt(src, MARKER, j) && ParseStatement(src, i, j, literal).Ok?
    requires forall k: nat | i <= k < j :: !OccursAt(src, MARKER, k)
    ensures var p := ParseStatement(src, i, j, literal).value;
      StatementOk(p.value, literal) && OccursAt(src, PrintStatement(p.value), i) && p.next == i + |PrintStatement(p.value)|
  {
    hide OccursAt, Absent, RowsOk, ParseRows, PrintRows, PrintStatement;
    OccursIsSlice(src, MARKER, j);
    var name := j + |MARKER|;
    var end := IndexFrom(src, [BACKTICK], name).value;
    var p := ParseStatement(src, i, j, literal).value;
    IndexIsFirst(src, [BACKTICK], name);
    OccursIsSlice(src, [BACKTICK], end);
    OccursIsSlice(src, VALUES, end + 1);
    NoBacktick(src, name, end);
    RowsSpelled(src, end + 1 + |VALUES|, literal);
    SliceOccurs(src, i, j);
    SliceOccurs(src, name, end);
    AbsentSlice(src, MARKER, i, j);
    StatementSplit(src, p.value, i);
  }

  lemma StatementReached(src: Bytes, s: Statement, i: nat, literal: Literals)
    requires StatementOk(s, literal) && OccursAt(src, PrintStatement(s), i)
    ensures var j := i + |s.gap|;
      && i <= |src| && IndexFrom(src, MARKER, i) == Some(j) && OccursAt(src, MARKER, j)
      && ParseStatement(src, i, j, literal) == Ok(Read(s, i + |PrintStatement(s)|))
  {
    hide OccursAt, Absent, RowsOk, ParseRows, PrintRows, PrintStatement;
    var j := i + |s.gap|;
    var name := j + |MARKER|;
    var end := name + |s.table|;
    StatementSplit(src, s, i);
    OccursIsSlice(src, s.gap, i);
    OccursIsSlice(src, MARKER, j);
    OccursIsSlice(src, s.table, name);
    forall k: nat | i <= k < j
      ensures !OccursAt(src, MARKER, k)
    {
      NoMarkerBefore(src, s.gap, i, k);
    }
    IndexReaches(src, MARKER, i, j);
    NoBacktick(src, name, end);
    IndexReaches(src, [BACKTICK], name, end);
    RowsReached(src, s.rows, end + 1 + |VALUES|, literal);
  }

  // ------------------------------------------------------------------ whole dumps

  lemma {:induction false} DumpSpelled(src: Bytes, i: nat, literal: Literals)
    requires i <= |src| && ParseDump(src, i, literal).Ok?
    ensures var d := ParseDump(src, i, literal).value;
      DumpOk(d, literal) && PrintStatements(d.statements, d.tail) == src[i..]
    decreases |src| - i
  {
    hide OccursAt, Absent, StatementOk, ParseStatement, PrintStatement;
    IndexIsFirst(src, MARKER, i);
    var at := IndexFrom(src, MARKER, i);
    if at.None? {
      AbsentSlice(src, MARKER, i, |src|);
      assert src[i..|src|] == src[i..];
    } else {
      StatementSpelled(src, i, at.value, literal);
      var p := ParseStatement(src, i, at.value, literal).value;
      DumpSpelled(src, p.next, literal);
      var d := ParseDump(src, p.next, literal).value;
      assert ([p.value] + d.statements)[1..] == d.statements;
      OccursIsSlice(src, PrintStatement(p.value), i);
      assert src[i..] == src[i..p.next] + src[p.next..];
    }
  }

  lemma NoIndex(src: Bytes, i: nat)
    requires i <= |src| && Absent(src[i..], MARKER)
    ensures IndexFrom(src, MARKER, i).None?
  {
    hide OccursAt, Absent;
    if IndexFrom(src, MARKER, i).Some? {
      NoMarkerAfter(src, i, IndexFrom(src, MARKER, i).value);
    }
  }

  lemma TextSplit(src: Bytes, i: nat, text: Bytes, rest: Bytes)
    requires i <= |src| && src[i..] == text + rest
    ensures i + |text| <= |src| && OccursAt(src, text, i) && src[i + |text|..] == rest
  {
    assert src[i..][..|text|] == text && src[i..][|text|..] == rest;
  }

  lemma {:induction false} DumpReached(src: Bytes, ss: seq<Statement>, tail: Bytes, i: nat, literal: Literals)
    requires i <= |src| && src[i..] == PrintStatements(ss, tail) && StatementsOk(ss, literal) && Absent(tail, MARKER)
    ensures ParseDump(src, i, literal) == Ok(Dump(ss, tail))
    decreases |ss|
  {
    hide OccursAt, Absent, StatementOk, ParseStatement, PrintStatement;
    if ss == [] {
      NoIndex(src, i);
    } else {
      TextSplit(src, i, PrintStatement(ss[0]), PrintStatements(ss[1..], tail));
      assert ss[0] in ss;
      StatementReached(src, ss[0], i, literal);
      DumpReached(src, ss[1..], tail, i + |PrintStatement(ss[0])|, literal);
      assert ss == [ss[0]] + ss[1..];
    }
  }

  /** The parser gives a dump for a text exactly when the text is that well-formed dump written out: it accepts
      nothing it does not account for byte by byte, and refuses nothing well formed. */
  lemma AcceptsExactlyTheGrammar(src: Bytes, d: Dump, literal: Literals)
    ensures ParseDump(src, 0, literal) == Ok(d) <==> DumpOk(d, literal) && PrintStatements(d.statements, d.tail) == src
  {
    hide StatementsOk, Absent, PrintStatements, ParseDump;
    assert src[0..] == src;
    if ParseDump(src, 0, literal) == Ok(d) {
      DumpSpelled(src, 0, literal);
    }
    if DumpOk(d, literal) && PrintStatements(d.statements, d.tail) == src {
      DumpReached(src, d.statements, d.tail, 0, literal);
    }
  }
}
