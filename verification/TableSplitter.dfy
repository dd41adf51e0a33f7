/** The code-span-aware splitter of one markdown table row, against printing the row. */
module TableSplitter {
  import opened Texts

  /** `str.strip` never removes the characters the splitter looks at. */
  ghost predicate Proper(space: Spaces) {
    space(' ') && !space('|') && !space('\\') && !space('`')
  }

  // ---- Splitting ----

  /** What remains once one leading and one trailing pipe are dropped. */
  function Inside(space: Spaces, line: string): string {
    var stripped := Strip(space, line);
    var head := if stripped != "" && stripped[0] == '|' then stripped[1..] else stripped;
    if head != "" && head[|head| - 1] == '|' then head[..|head| - 1] else head
  }

  predicate EscapedPipeAt(s: string, i: nat) {
    i + 1 < |s| && s[i] == '\\' && s[i + 1] == '|'
  }

  /** The cells of the rest of a row, after `buf` of the current cell has been read. */
  function Cells(space: Spaces, s: string, i: nat, inCode: bool, buf: string): (cells: seq<string>)
    requires i <= |s|
    ensures cells != []
    decreases |s| - i
  {
    if i == |s| then [Strip(space, buf)]
    else if EscapedPipeAt(s, i) then Cells(space, s, i + 2, inCode, buf + "|")
    else
      var code := if s[i] == '`' then !inCode else inCode;
      if s[i] == '|' && !code then [Strip(space, buf)] + Cells(space, s, i + 1, code, "")
      else Cells(space, s, i + 1, code, buf + [s[i]])
  }

  function Split(space: Spaces, line: string): seq<string> {
    Cells(space, Inside(space, line), 0, false, "")
  }

  /** One turn of the splitting loop, with the finished cells in front. */
  lemma CellsTurn(space: Spaces, done: seq<string>, s: string, i: nat, inCode: bool, buf: string)
    requires i < |s|
    ensures var code := if s[i] == '`' then !inCode else inCode;
            done + Cells(space, s, i, inCode, buf) ==
            if EscapedPipeAt(s, i) then done + Cells(space, s, i + 2, inCode, buf + "|")
            else if s[i] == '|' && !code then (done + [Strip(space, buf)]) + Cells(space, s, i + 1, code, "")
            else done + Cells(space, s, i + 1, code, buf + [s[i]])
  {
  }

  method SplitCells(space: Spaces, line: string) returns (cells: seq<string>)
    ensures cells == Split(space, line)
  {
    var stripped := Strip(space, line);
    if stripped != "" && stripped[0] == '|' {
      stripped := stripped[1..];
    }
    if stripped != "" && stripped[|stripped| - 1] == '|' {
      stripped := stripped[..|stripped| - 1];
    }
    assert stripped == Inside(space, line);
    cells := [];
    var buf, inCode, index := "", false, 0;
    ghost var whole := Cells(space, stripped, 0, false, "");
    while index < |stripped|
      invariant index <= |stripped|
      invariant whole == cells + Cells(space, stripped, index, inCode, buf)
    {
      CellsTurn(space, cells, stripped, index, inCode, buf);
      var next := stripped[index];
      if next == '\\' && index + 1 < |stripped| && stripped[index + 1] == '|' {
        buf := buf + "|";
        index := index + 2;
        continue;
      }
      if next == '`' {
        inCode := !inCode;
      }
      if next == '|' && !inCode {
        cells := cells + [Strip(space, buf)];
        buf := "";
        index := index + 1;
        continue;
      }
      buf := buf + [next];
      index := index + 1;
    }
    cells := cells + [Strip(space, buf)];
  }

  // ---- Printing ----

  /** Every pipe of a cell is escaped. */
  function Escape(cell: string): string {
    if cell == "" then "" else EscapeChar(cell[0]) + Escape(cell[1..])
  }

  function EscapeChar(c: char): string {
    if c == '|' then "\\|" else [c]
  }

  function Body(cells: seq<string>, pad: string): string
    requires cells != []
  {
    var cell := Escape(pad + cells[0] + pad);
    if |cells| == 1 then cell else cell + "|" + Body(cells[1..], pad)
  }

  /** `| a | b |`, or `|a|b|` with no padding. */
  function Print(cells: seq<string>, pad: string): string
    requires cells != []
  {
    "|" + Body(cells, pad) + "|"
  }

  predicate OddTicks(cell: string) {
    cell != "" && (OddTicks(cell[1..]) != (cell[0] == '`'))
  }

  predicate EndsInBackslash(cell: string) {
    cell != "" && cell[|cell| - 1] == '\\'
  }

  predicate AllSpaces(space: Spaces, s: string) {
    forall k :: 0 <= k < |s| ==> space(s[k])
  }

  /** The pipe printed after this cell is read as a boundary. */
  predicate ClosesCell(cell: string, pad: string) {
    !OddTicks(cell) && (pad != "" || !EndsInBackslash(cell))
  }

  predicate AllClose(cells: seq<string>, pad: string) {
    forall k :: 0 <= k < |cells| - 1 ==> ClosesCell(cells[k], pad)
  }

  // ---- Reading printed text back ----

  lemma StripPadded(space: Spaces, pad: string, cell: string)
    requires AllSpaces(space, pad) && Trimmed(space, cell)
    ensures Strip(space, pad + cell + pad) == cell
  {
    StripBetween(space, pad, cell, pad);
  }

  predicate ReadsAt(text: string, s: string, i: nat) {
    i + |text| <= |s| && forall k :: i <= k < i + |text| ==> s[k] == text[k - i]
  }

  lemma ReadsAtSplit(a: string, b: string, s: string, i: nat)
    requires ReadsAt(a + b, s, i)
    ensures ReadsAt(a, s, i) && ReadsAt(b, s, i + |a|)
  {
    forall k | i + |a| <= k < i + |a| + |b| ensures s[k] == b[k - (i + |a|)] {
      assert s[k] == (a + b)[k - i];
    }
  }

  /** Reading an escaped cell appends the cell, unless its last backslash meets a pipe. */
  lemma {:induction false} CellsOfEscaped(space: Spaces, s: string, i: nat, cell: string, inCode: bool, buf: string)
    requires ReadsAt(Escape(cell), s, i)
    requires EndsInBackslash(cell) ==> i + |Escape(cell)| == |s| || s[i + |Escape(cell)|] != '|'
    ensures Cells(space, s, i, inCode, buf) ==
            Cells(space, s, i + |Escape(cell)|, inCode != OddTicks(cell), buf + cell)
    decreases |cell|
  {
    if cell == "" {
      assert buf + cell == buf;
    } else {
      var head, tail := EscapeChar(cell[0]), Escape(cell[1..]);
      var next := i + |head|;
      ReadsAtSplit(head, tail, s, i);
      assert s[i] == head[0];
      if cell[0] == '|' {
        assert s[i + 1] == head[1];
      } else if cell[0] == '\\' && |cell| > 1 {
        assert s[next] == tail[0] == EscapeChar(cell[1])[0];
      }
      assert (buf + [cell[0]]) + cell[1..] == buf + cell;
      CellsOfEscaped(space, s, next, cell[1..], if cell[0] == '`' then !inCode else inCode, buf + [cell[0]]);
    }
  }

  lemma EscapeCons(c: char, rest: string)
    ensures Escape([c] + rest) == EscapeChar(c) + Escape(rest)
  {
    assert ([c] + rest)[1..] == rest;
  }

  lemma {:induction false} EscapeSnoc(front: string, c: char)
    ensures Escape(front + [c]) == Escape(front) + EscapeChar(c)
  {
    if front == "" {
      EscapeCons(c, "");
      assert front + [c] == [c] + "" && EscapeChar(c) + "" == EscapeChar(c);
    } else {
      var x, rest := front[0], front[1..];
      EscapeSnoc(rest, c);
      EscapeCons(x, rest);
      EscapeCons(x, rest + [c]);
      assert front == [x] + rest && front + [c] == [x] + (rest + [c]);
    }
  }

  lemma {:induction false} OddTicksAppend(a: string, b: string)
    ensures OddTicks(a + b) == (OddTicks(a) != OddTicks(b))
  {
    if a == "" {
      assert a + b == b;
    } else {
      OddTicksAppend(a[1..], b);
      assert (a + b)[1..] == a[1..] + b;
    }
  }

  lemma {:induction false} SpacesHaveNoTicks(space: Spaces, pad: string)
    requires Proper(space) && AllSpaces(space, pad)
    ensures !OddTicks(pad)
  {
    if pad != "" { SpacesHaveNoTicks(space, pad[1..]); }
  }

  lemma PaddingIsNeutral(space: Spaces, cell: string, pad: string)
    requires Proper(space) && AllSpaces(space, pad)
    ensures OddTicks(pad + cell + pad) == OddTicks(cell)
    ensures EndsInBackslash(pad + cell + pad) <==> pad == "" && EndsInBackslash(cell)
  {
    SpacesHaveNoTicks(space, pad);
    OddTicksAppend(pad + cell, pad);
    OddTicksAppend(pad, cell);
    if pad == "" { assert pad + cell + pad == cell; }
  }

  /** A cell that leaves the pipe after it inside a code span or behind a backslash runs on
      into the next one. */
  lemma CellsPastBoundary(space: Spaces, s: string, i: nat, cell: string, inCode: bool, buf: string) returns (code: bool, more: string)
    requires ReadsAt(Escape(cell), s, i) && i + |Escape(cell)| < |s| && s[i + |Escape(cell)|] == '|'
    requires inCode != OddTicks(cell) || EndsInBackslash(cell)
    ensures Cells(space, s, i, inCode, buf) == Cells(space, s, i + |Escape(cell)| + 1, code, more)
  {
    if EndsInBackslash(cell) {
      var front := cell[..|cell| - 1];
      BackslashIsLast(s, i, cell);
      code, more := inCode != OddTicks(front), buf + front + "|";
      CellsPastBackslash(space, s, i, front, inCode, buf);
    } else {
      CellsOfEscaped(space, s, i, cell, inCode, buf);
      code, more := true, buf + cell + "|";
    }
  }

  lemma BackslashIsLast(s: string, i: nat, cell: string)
    requires ReadsAt(Escape(cell), s, i) && EndsInBackslash(cell)
    ensures var front := cell[..|cell| - 1];
            && |Escape(cell)| == |Escape(front)| + 1
            && ReadsAt(Escape(front), s, i) && s[i + |Escape(front)|] == '\\'
  {
    var front := cell[..|cell| - 1];
    assert cell == front + ['\\'];
    EscapeSnoc(front, '\\');
    ReadsAtSplit(Escape(front), "\\", s, i);
    assert s[i + |Escape(front)|] == "\\"[0];
  }

  lemma CellsPastBackslash(space: Spaces, s: string, i: nat, front: string, inCode: bool, buf: string)
    requires ReadsAt(Escape(front), s, i)
    requires var next := i + |Escape(front)|; next + 1 < |s| && s[next] == '\\' && s[next + 1] == '|'
    ensures Cells(space, s, i, inCode, buf) ==
            Cells(space, s, i + |Escape(front)| + 2, inCode != OddTicks(front), buf + front + "|")
  {
    CellsOfEscaped(space, s, i, front, inCode, buf);
  }

  lemma BodyParts(s: string, i: nat, cells: seq<string>, pad: string)
    requires cells != [] && i <= |s| && s[i..] == Body(cells, pad)
    ensures var next := i + |Escape(pad + cells[0] + pad)|;
            && next <= |s| && ReadsAt(Escape(pad + cells[0] + pad), s, i)
            && (|cells| == 1 ==> next == |s|)
            && (|cells| > 1 ==> next < |s| && s[next] == '|' && s[next + 1..] == Body(cells[1..], pad))
  {
    var cell := Escape(pad + cells[0] + pad);
    var next := i + |cell|;
    assert s[i..][..|cell|] == cell;
    if |cells| > 1 {
      assert s[i..][|cell|] == '|';
      assert s[i..][|cell| + 1..] == Body(cells[1..], pad);
    }
  }

  /** Reading a printed body finds no more cells than were printed, and finds as many only
      when every boundary is read as one. */
  lemma {:induction false} BodyCount(space: Spaces, s: string, i: nat, cells: seq<string>, pad: string, inCode: bool, buf: string)
    requires Proper(space) && AllSpaces(space, pad)
    requires cells != [] && i <= |s| && s[i..] == Body(cells, pad)
    ensures |Cells(space, s, i, inCode, buf)| <= |cells|
    ensures |Cells(space, s, i, inCode, buf)| == |cells| && !inCode ==> AllClose(cells, pad)
    decreases |cells|
  {
    BodyParts(s, i, cells, pad);
    PaddingIsNeutral(space, cells[0], pad);
    var cell := pad + cells[0] + pad;
    var next := i + |Escape(cell)|;
    if |cells| == 1 {
      CellsOfEscaped(space, s, i, cell, inCode, buf);
    } else if inCode != OddTicks(cell) || EndsInBackslash(cell) {
      var code, more := CellsPastBoundary(space, s, i, cell, inCode, buf);
      BodyCount(space, s, next + 1, cells[1..], pad, code, more);
    } else {
      CellIsClosed(space, s, i, cell, inCode, buf);
      BodyCount(space, s, next + 1, cells[1..], pad, false, "");
      AllCloseCons(cells, pad);
    }
  }

  lemma CellIsClosed(space: Spaces, s: string, i: nat, cell: string, inCode: bool, buf: string)
    requires ReadsAt(Escape(cell), s, i) && i + |Escape(cell)| < |s| && s[i + |Escape(cell)|] == '|'
    requires inCode == OddTicks(cell) && !EndsInBackslash(cell)
    ensures |Cells(space, s, i, inCode, buf)| == 1 + |Cells(space, s, i + |Escape(cell)| + 1, false, "")|
  {
    CellsOfEscaped(space, s, i, cell, inCode, buf);
  }

  lemma AllCloseCons(cells: seq<string>, pad: string)
    requires |cells| > 1
    ensures AllClose(cells, pad) <==> ClosesCell(cells[0], pad) && AllClose(cells[1..], pad)
  {
    if ClosesCell(cells[0], pad) && AllClose(cells[1..], pad) {
      forall k | 0 <= k < |cells| - 1 ensures ClosesCell(cells[k], pad) {
        if k > 0 { assert cells[k] == cells[1..][k - 1]; }
      }
    }
    if AllClose(cells, pad) {
      forall k | 0 <= k < |cells[1..]| - 1 ensures ClosesCell(cells[1..][k], pad) {
        assert cells[1..][k] == cells[k + 1];
      }
    }
  }

  lemma CellThenBoundary(space: Spaces, s: string, i: nat, cell: string)
    requires ReadsAt(Escape(cell), s, i) && i + |Escape(cell)| < |s| && s[i + |Escape(cell)|] == '|'
    requires !OddTicks(cell) && !EndsInBackslash(cell)
    ensures Cells(space, s, i, false, "") == [Strip(space, cell)] + Cells(space, s, i + |Escape(cell)| + 1, false, "")
  {
    CellsOfEscaped(space, s, i, cell, false, "");
    assert "" + cell == cell;
  }

  lemma {:induction false} BodyReadsBack(space: Spaces, s: string, i: nat, cells: seq<string>, pad: string)
    requires Proper(space) && AllSpaces(space, pad)
    requires cells != [] && i <= |s| && s[i..] == Body(cells, pad)
    requires AllClose(cells, pad) && forall cell :: cell in cells ==> Trimmed(space, cell)
    ensures Cells(space, s, i, false, "") == cells
    decreases |cells|
  {
    BodyParts(s, i, cells, pad);
    PaddingIsNeutral(space, cells[0], pad);
    StripPadded(space, pad, cells[0]);
    var cell := pad + cells[0] + pad;
    if |cells| == 1 {
      CellsOfEscaped(space, s, i, cell, false, "");
      assert "" + cell == cell;
    } else {
      AllCloseCons(cells, pad);
      CellThenBoundary(space, s, i, cell);
      assert forall rest :: rest in cells[1..] ==> rest in cells;
      BodyReadsBack(space, s, i + |Escape(cell)| + 1, cells[1..], pad);
    }
  }

  lemma InsideOfPrinted(space: Spaces, cells: seq<string>, pad: string, left: string, right: string)
    requires Proper(space) && cells != [] && AllSpaces(space, left) && AllSpaces(space, right)
    ensures Inside(space, left + Print(cells, pad) + right) == Body(cells, pad)
  {
    var line := Print(cells, pad);
    assert line[0] == '|' && line[|line| - 1] == '|';
    StripBetween(space, left, line, right);
    assert line[1..] == Body(cells, pad) + "|";
  }

  lemma {:induction false} CellsAreTrimmed(space: Spaces, s: string, i: nat, inCode: bool, buf: string)
    requires i <= |s|
    ensures forall cell :: cell in Cells(space, s, i, inCode, buf) ==> Trimmed(space, cell)
    decreases |s| - i
  {
    StripTrims(space, buf);
    if i < |s| {
      if EscapedPipeAt(s, i) {
        CellsAreTrimmed(space, s, i + 2, inCode, buf + "|");
      } else {
        var code := if s[i] == '`' then !inCode else inCode;
        CellsAreTrimmed(space, s, i + 1, code, "");
        CellsAreTrimmed(space, s, i + 1, code, buf + [s[i]]);
      }
    }
  }

  /** Splitting undoes printing, with white space around the row, exactly for trimmed cells
      whose inner boundaries are all read: no cell but the last has an odd number of
      backticks and, in a row printed without padding, no cell but the last ends in a
      backslash. */
  lemma SplitUndoesPrint(space: Spaces, cells: seq<string>, pad: string, left: string, right: string)
    requires Proper(space) && AllSpaces(space, pad) && cells != [] && AllSpaces(space, left) && AllSpaces(space, right)
    ensures Split(space, left + Print(cells, pad) + right) == cells <==>
            (forall cell :: cell in cells ==> Trimmed(space, cell)) && AllClose(cells, pad)
  {
    InsideOfPrinted(space, cells, pad, left, right);
    var body := Body(cells, pad);
    assert body[0..] == body;
    if (forall cell :: cell in cells ==> Trimmed(space, cell)) && AllClose(cells, pad) {
      BodyReadsBack(space, body, 0, cells, pad);
    }
    if Cells(space, body, 0, false, "") == cells {
      CellsAreTrimmed(space, body, 0, false, "");
      BodyCount(space, body, 0, cells, pad, false, "");
    }
  }

  /** Without padding a cell that ends in a backslash runs into the next one, and so does a
      cell with one backtick. */
  lemma RunTogetherExample(space: Spaces)
    requires Proper(space) && !space('b')
    ensures Print(["\\", "b"], "") == "|\\|b|" && Split(space, "|\\|b|") == ["|b"]
    ensures Print(["`", "b"], "") == "|`|b|" && Split(space, "|`|b|") == ["`|b"]
  {
    PrintOfTwo(space, '\\', 'b');
    PrintOfTwo(space, '`', 'b');
    BackslashRow(space);
    BacktickRow(space);
  }

  lemma EscapeOne(c: char)
    requires c != '|'
    ensures Escape([c]) == [c]
  {
    assert [c][1..] == "";
  }

  lemma PrintOfTwo(space: Spaces, c: char, e: char)
    requires Proper(space) && c != '|' && e != '|'
    ensures Print([[c], [e]], "") == ['|', c, '|', e, '|'] && Inside(space, ['|', c, '|', e, '|']) == [c, '|', e]
  {
    EscapeOne(c);
    EscapeOne(e);
    assert [[c], [e]][1..] == [[e]];
    InsideOfPrinted(space, [[c], [e]], "", "", "");
    assert "" + Print([[c], [e]], "") + "" == Print([[c], [e]], "");
  }

  lemma BackslashRow(space: Spaces)
    requires Proper(space) && !space('b')
    ensures Cells(space, "\\|b", 0, false, "") == ["|b"]
  {
    var s := "\\|b";
    assert EscapedPipeAt(s, 0);
    assert Cells(space, s, 0, false, "") == Cells(space, s, 2, false, "" + "|");
    assert "" + "|" == "|" && "|" + [s[2]] == "|b";
    assert Cells(space, s, 2, false, "|") == Cells(space, s, 3, false, "|b");
    TrimmedStays(space, "|b");
  }

  lemma BacktickRow(space: Spaces)
    requires Proper(space) && !space('b')
    ensures Cells(space, "`|b", 0, false, "") == ["`|b"]
  {
    var s := "`|b";
    assert "" + [s[0]] == "`" && "`" + [s[1]] == "`|" && "`|" + [s[2]] == "`|b";
    assert Cells(space, s, 0, false, "") == Cells(space, s, 1, true, "`");
    assert Cells(space, s, 1, true, "`") == Cells(space, s, 2, true, "`|");
    assert Cells(space, s, 2, true, "`|") == Cells(space, s, 3, true, "`|b");
    TrimmedStays(space, "`|b");
  }
}
