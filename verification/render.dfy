/** What the trainer draws, as lists of cells instead of terminal calls. */
module Render {
  import opened Keys

  /** `Correct` is the green colour pair, `Incorrect` the red one, `Plain`
      the terminal's default. */
  datatype Style = Plain | Correct | Incorrect

  /** `index` is the position of the drawn entry in the list being drawn. */
  datatype Cell = Cell(index: nat, row: nat, col: nat, text: string, style: Style)

  /** The number of newline entries before position `i`: the row on which
      entry `i` is drawn in typing mode. */
  function RowOf(entries: seq<Key>, i: nat): nat
    requires i <= |entries|
  {
    multiset(entries[..i])["\n"]
  }

  /** `col` counts the entries since the last newline before position `i`
      (or since the start, when there is none). */
  predicate ColumnOf(entries: seq<Key>, i: nat, col: nat)
    requires i <= |entries|
  {
    && col <= i
    && (forall j :: i - col <= j < i ==> entries[j] != "\n")
    && (col == i || entries[i - col - 1] == "\n")
  }

  /** The column of entry `i` in typing mode, as the drawing loop counts it. */
  function Column(entries: seq<Key>, i: nat): nat
    requires i <= |entries|
  {
    if i == 0 then 0
    else if entries[i - 1] == "\n" then 0
    else Column(entries, i - 1) + 1
  }

  /** The column counted by the loop is the number of entries since the
      last newline. */
  lemma {:induction false} ColumnCountsSinceNewline(entries: seq<Key>, i: nat)
    requires i <= |entries|
    ensures ColumnOf(entries, i, Column(entries, i))
  {
    if i > 0 && entries[i - 1] != "\n" {
      ColumnCountsSinceNewline(entries, i - 1);
    }
  }

  /** Red when the recorded key differs from the target character at its
      position, green otherwise. */
  function StyleOf(target: string, current: seq<Key>, i: nat): (style: Style)
    requires i < |current| && i < |target|
    ensures style == Incorrect <==> current[i] != [target[i]]
    ensures style == Correct <==> current[i] == [target[i]]
  {
    if current[i] != [target[i]] then Incorrect else Correct
  }

  /** The cell drawn for recorded key `i`: that key, at its row and column,
      in its style. */
  function CellFor(target: string, current: seq<Key>, i: nat): Cell
    requires i < |current| && i < |target|
  {
    Cell(i, RowOf(current, i), Column(current, i), current[i], StyleOf(target, current, i))
  }

  /** A cell of the typing-mode overlay: drawn for a recorded key other
      than a newline. */
  predicate Placed(target: string, current: seq<Key>, c: Cell)
  {
    && c.index < |current| && c.index < |target|
    && current[c.index] != "\n"
    && c == CellFor(target, current, c.index)
  }

  /** The cells drawn for the first `n` recorded keys. */
  function Overlay(target: string, current: seq<Key>, n: nat): seq<Cell>
    requires n <= |current| <= |target|
  {
    if n == 0 then []
    else
      var i := n - 1;
      Overlay(target, current, i)
      + (if current[i] == "\n" then [] else [CellFor(target, current, i)])
  }

  lemma OverlayStep(target: string, current: seq<Key>, n: nat)
    requires 0 < n <= |current| <= |target|
    ensures Overlay(target, current, n)
         == Overlay(target, current, n - 1)
            + (if current[n - 1] == "\n" then [] else [CellFor(target, current, n - 1)])
  {
  }

  /** Every overlay cell is drawn for a recorded key other than a newline,
      at that key's row and column and in its style. */
  lemma {:induction false} OverlayPlaced(target: string, current: seq<Key>, n: nat)
    requires n <= |current| <= |target|
    ensures forall k :: 0 <= k < |Overlay(target, current, n)| ==>
              Placed(target, current, Overlay(target, current, n)[k])
              && Overlay(target, current, n)[k].index < n
  {
    if n > 0 {
      OverlayPlaced(target, current, n - 1);
      OverlayStep(target, current, n);
    }
  }

  /** The overlay's cells follow the order of the recorded keys. */
  lemma {:induction false} OverlayOrdered(target: string, current: seq<Key>, n: nat)
    requires n <= |current| <= |target|
    ensures forall k, l :: 0 <= k < l < |Overlay(target, current, n)| ==>
              Overlay(target, current, n)[k].index < Overlay(target, current, n)[l].index
  {
    if n > 0 {
      OverlayPlaced(target, current, n - 1);
      OverlayOrdered(target, current, n - 1);
      OverlayStep(target, current, n);
    }
  }

  /** Every recorded key other than a newline gets a cell. */
  lemma {:induction false} OverlayComplete(target: string, current: seq<Key>, n: nat)
    requires n <= |current| <= |target|
    ensures forall i :: 0 <= i < n && current[i] != "\n" ==>
              exists k :: 0 <= k < |Overlay(target, current, n)| && Overlay(target, current, n)[k].index == i
  {
    if n > 0 {
      OverlayComplete(target, current, n - 1);
      OverlayStep(target, current, n);
      var before := Overlay(target, current, n - 1);
      var cells := Overlay(target, current, n);
      forall i | 0 <= i < n && current[i] != "\n"
        ensures exists k :: 0 <= k < |cells| && cells[k].index == i
      {
        if i < n - 1 {
          var k :| 0 <= k < |before| && before[k].index == i;
          assert cells[k] == before[k];
        } else {
          assert cells[|before|].index == i;
        }
      }
    }
  }

  /** The typing-mode overlay drawn over the target: one cell per recorded
      key, in order; a newline entry is not drawn and moves drawing to the
      start of the next row. */
  method TypingCells(target: string, current: seq<Key>) returns (cells: seq<Cell>)
    requires |current| <= |target|
    ensures cells == Overlay(target, current, |current|)
    ensures forall k :: 0 <= k < |cells| ==>
              Placed(target, current, cells[k])
              && (cells[k].style == Incorrect <==> current[cells[k].index] != [target[cells[k].index]])
    ensures forall k, l :: 0 <= k < l < |cells| ==> cells[k].index < cells[l].index
    ensures forall i :: 0 <= i < |current| && current[i] != "\n" ==>
              exists k :: 0 <= k < |cells| && cells[k].index == i
  {
    var x, y := 0, 0;
    cells := [];
    var i := 0;
    while i < |current|
      invariant 0 <= i <= |current|
      invariant y == RowOf(current, i)
      invariant x == Column(current, i)
      invariant cells == Overlay(target, current, i)
    {
      NextPosition(current, i);
      OverlayStep(target, current, i + 1);
      var entry := current[i];
      var style := if entry != [target[i]] then Incorrect else Correct;
      if entry == "\n" {
        y := y + 1;
        x := 0;
      } else {
        assert Cell(i, y, x, entry, style) == CellFor(target, current, i);
        cells := cells + [Cell(i, y, x, entry, style)];
        x := x + 1;
      }
      i := i + 1;
    }
    OverlayMeaning(target, current, cells);
  }

  lemma OverlayMeaning(target: string, current: seq<Key>, cells: seq<Cell>)
    requires |current| <= |target| && cells == Overlay(target, current, |current|)
    ensures forall k :: 0 <= k < |cells| ==>
              Placed(target, current, cells[k])
              && (cells[k].style == Incorrect <==> current[cells[k].index] != [target[cells[k].index]])
    ensures forall k, l :: 0 <= k < l < |cells| ==> cells[k].index < cells[l].index
    ensures forall i :: 0 <= i < |current| && current[i] != "\n" ==>
              exists k :: 0 <= k < |cells| && cells[k].index == i
  {
    OverlayPlaced(target, current, |current|);
    OverlayOrdered(target, current, |current|);
    OverlayComplete(target, current, |current|);
  }

  /** A newline entry moves drawing to column 0 of the next row; any other
      entry advances the column by one on the same row. */
  lemma NextPosition(entries: seq<Key>, i: nat)
    requires i < |entries|
    ensures entries[i] == "\n" ==> RowOf(entries, i + 1) == RowOf(entries, i) + 1 && Column(entries, i + 1) == 0
    ensures entries[i] != "\n" ==> RowOf(entries, i + 1) == RowOf(entries, i) && Column(entries, i + 1) == Column(entries, i) + 1
  {
    assert entries[..i + 1] == entries[..i] + [entries[i]];
  }

  /** The scroll-mode line: character `i` of the visible text in column `i`
      of row 4. */
  function ScrollCells(text: string, index: int): (cells: seq<Cell>)
    ensures |cells| == |text|
    ensures forall i :: 0 <= i < |cells| ==>
              cells[i].index == i && cells[i].row == 4 && cells[i].col == i && cells[i].text == [text[i]]
    ensures forall i :: 0 <= i < |cells| ==> (cells[i].style == Correct <==> i < index)
    ensures forall i :: 0 <= i < |cells| ==> cells[i].style != Incorrect
  {
    seq(|text|, i requires 0 <= i < |text| => Cell(i, 4, i, [text[i]], if i < index then Correct else Plain))
  }

  /** The green cells of the scroll line are a prefix of it, `index` cells
      long (clipped to the line). */
  lemma GreenIsPrefix(text: string, index: int)
    ensures var cells := ScrollCells(text, index);
      && (forall i, j :: 0 <= i <= j < |cells| && cells[j].style == Correct ==> cells[i].style == Correct)
      && (0 <= index <= |text| ==> forall i :: 0 <= i < |cells| ==> (cells[i].style == Correct <==> i < index))
      && (index >= |text| ==> forall i :: 0 <= i < |cells| ==> cells[i].style == Correct)
      && (index <= 0 ==> forall i :: 0 <= i < |cells| ==> cells[i].style == Plain)
  {
  }

  datatype PanelItem = Heading | SymbolsPerMinute(spm: int) | Mistakes(count: int) | TimeElapsed(hundredths: int)

  datatype PanelLine = PanelLine(row: nat, col: int, item: PanelItem)

  /** The info panel in the right half of a terminal `columns` wide. A
      negative mistake count means the mode has none, and its line is left
      out. */
  function InfoPanel(columns: int, spm: int, mistakes: int, elapsed: int): (lines: seq<PanelLine>)
    ensures forall i :: 0 <= i < |lines| ==> lines[i].col == columns / 2 + 1
    ensures forall i, j :: 0 <= i < j < |lines| ==> 11 <= lines[i].row < lines[j].row <= 14
    ensures (exists i :: 0 <= i < |lines| && lines[i].item.Mistakes?) <==> mistakes >= 0
    ensures forall i :: 0 <= i < |lines| && lines[i].item.Mistakes? ==> lines[i].item.count == mistakes
    ensures |lines| >= 3 && lines[0].item == Heading && lines[1].item == SymbolsPerMinute(spm)
    ensures lines[|lines| - 1].item == TimeElapsed(elapsed)
    ensures lines[0].row == 11 && lines[1].row == 12 && lines[|lines| - 1].row == 14
    ensures |lines| == if mistakes >= 0 then 4 else 3
  {
    var col := columns / 2 + 1;
    var head := [PanelLine(11, col, Heading), PanelLine(12, col, SymbolsPerMinute(spm))];
    var tail := [PanelLine(14, col, TimeElapsed(elapsed))];
    if mistakes >= 0 then
      var lines := head + [PanelLine(13, col, Mistakes(mistakes))] + tail;
      assert lines[2].item.Mistakes?;
      lines
    else
      head + tail
  }

  /** Typing mode always shows its counter; scroll mode, which passes -1,
      never does. */
  lemma PanelPerMode(columns: int, spm: int, mistakes: nat, elapsed: int)
    ensures exists i :: 0 <= i < |InfoPanel(columns, spm, mistakes, elapsed)|
                        && InfoPanel(columns, spm, mistakes, elapsed)[i].item == Mistakes(mistakes)
    ensures forall i :: 0 <= i < |InfoPanel(columns, spm, -1, elapsed)| ==>
              !InfoPanel(columns, spm, -1, elapsed)[i].item.Mistakes?
  {
    assert InfoPanel(columns, spm, mistakes, elapsed)[2].item == Mistakes(mistakes);
  }
}
