/** Cells, rows and the scrollback: crates/rdt-terminal/src/grid.rs. */
module Grid {
  import opened Basics

  datatype Color = Default | Indexed(index: byte) | Rgb(r: byte, g: byte, b: byte)

  datatype Attrs = Attrs(fg: Color, bg: Color, bold: bool, dim: bool, italic: bool, underline: bool,
                         blink: bool, inverse: bool, hidden: bool, strikethrough: bool)

  const PLAIN: Attrs := Attrs(Default, Default, false, false, false, false, false, false, false, false)

  datatype Cell = Cell(ch: Scalar, attrs: Attrs, width: nat)

  const SPACE: Scalar := 0x20
  const EMPTY: Cell := Cell(SPACE, PLAIN, 1)

  /** A cell holding one character, as wide as the character. */
  function NewCell(ch: Scalar, attrs: Attrs): Cell {
    Cell(ch, attrs, if IsWide(ch) then 2 else 1)
  }

  predicate IsWide(c: Scalar) {
    || 0x1100 <= c <= 0x115F
    || 0x2E80 <= c <= 0x303E
    || 0x3041 <= c <= 0x33FF
    || 0x3400 <= c <= 0x4DBF
    || 0x4E00 <= c <= 0x9FFF
    || 0xA000 <= c <= 0xA4CF
    || 0xAC00 <= c <= 0xD7A3
    || 0xF900 <= c <= 0xFAFF
    || 0xFE30 <= c <= 0xFE6F
    || 0xFF00 <= c <= 0xFF60
    || 0xFFE0 <= c <= 0xFFE6
    || 0x1_F300 <= c <= 0x1_F64F
    || 0x1_F900 <= c <= 0x1_F9FF
    || 0x2_0000 <= c <= 0x2_FFFD
    || 0x3_0000 <= c <= 0x3_FFFD
  }

  datatype Row = Row(cells: seq<Cell>, wrapped: bool)

  function BlankRow(cols: nat): Row {
    Row(Repeat(cols, EMPTY), false)
  }

  /** The bounded history of lines scrolled off the top. */
  class Scrollback {
    var limit: nat
    var lines: seq<Row>

    ghost predicate Valid()
      reads this
    {
      |lines| <= limit
    }

    constructor (limit: nat)
      ensures Valid() && this.limit == limit && lines == []
    {
      this.limit := limit;
      lines := [];
    }

    /** Keeps the newest `limit` lines. */
    method Push(row: Row)
      requires Valid()
      modifies this`lines
      ensures Valid() && lines == LastN(old(lines) + [row], limit)
    {
      if limit == 0 {
        return;
      }
      if |lines| == limit {
        lines := lines[1..];
      }
      lines := lines + [row];
    }

    method Clear()
      modifies this`lines
      ensures Valid() && lines == []
    {
      lines := [];
    }

    /** Changes the maximum, trimming from the oldest end. */
    method SetLimit(limit: nat)
      modifies this
      ensures Valid() && this.limit == limit && lines == LastN(old(lines), limit)
    {
      this.limit := limit;
      ghost var dropped := 0;
      while |lines| > this.limit
        invariant this.limit == limit && dropped <= |old(lines)| && lines == old(lines)[dropped..]
        invariant dropped > 0 ==> |lines| >= limit
      {
        lines := lines[1..];
        dropped := dropped + 1;
      }
    }
  }
}
