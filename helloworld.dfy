/** `ExampleHelloWorld` (examples/00-helloworld/helloworld.cpp): the editor
    state the example keeps between frames (the grid, the cell under the
    mouse and the brush) and the handlers that change it. */
module HelloWorld {
  import opened Cells
  import opened Grid

  class ExampleHelloWorld {
    /** `m_map` */
    var grid: Map
    /** `m_x`, `m_y`: the cell under the mouse, as computed by the last frame. */
    var x: int
    var y: int
    /** `m_brush` */
    var brush: Cell

    ghost predicate Valid()
      reads this, grid
    {
      grid.Valid()
    }

    /** `(m_x, m_y)` names a cell of the grid. */
    ghost predicate CursorInBounds()
      reads this, grid
    {
      0 <= x < grid.width && 0 <= y < grid.height
    }

    /** The part of `init` that sets up editor state: an empty grid and the
        brush `'a'` in colour 0xF on colour 0x0. */
    constructor ()
      ensures Valid() && fresh(grid) && fresh(grid.cells)
      ensures grid.width == 0 && grid.height == 0 && grid.Contents() == []
      ensures x == 0 && y == 0 && brush == InitialBrush
    {
      grid := new Map();
      x, y := 0, 0;
      brush := InitialBrush;
    }

    /** The `[` key: the brush's foreground goes up by one, modulo 16. */
    method LeftBracket()
      requires Valid()
      modifies this`brush
      ensures Valid()
      ensures brush == ForegroundUp(old(brush))
    {
      brush := brush.(foreground := ToNibble(brush.foreground + 1));
    }

    /** The `]` key: the brush's foreground goes down by one, modulo 16. */
    method RightBracket()
      requires Valid()
      modifies this`brush
      ensures Valid()
      ensures brush == ForegroundDown(old(brush))
    {
      brush := brush.(foreground := ToNibble(brush.foreground - 1));
    }

    /** The `,` handler: pick up the cell under the cursor as the brush; the
        grid is left as it is. */
    method Comma()
      requires Valid() && CursorInBounds()
      modifies this`brush
      ensures Valid()
      ensures brush == CellAt(grid.Contents(), grid.width, grid.height, x, y)
      ensures grid.Contents() == old(grid.Contents())
    {
      brush := grid.At(x, y);
    }

    /** The paint step of `update`: while the left button is down the brush
        is stored in the cell under the cursor, and only there. */
    method Paint(leftButton: bool)
      requires Valid()
      requires leftButton ==> CursorInBounds()
      modifies grid.cells
      ensures Valid()
      ensures brush == old(brush)
      ensures grid.Contents() ==
        if leftButton then Painted(old(grid.Contents()), grid.width, grid.height, x, y, brush)
        else old(grid.Contents())
    {
      if leftButton {
        grid.Set(x, y, brush);
      }
    }

    /** The editor part of one frame of `update`: fit the grid to the debug
        text area, find the cell under the mouse, and paint it while the left
        button is down. `pixelWidth`/`pixelHeight` and `textWidth`/`textHeight`
        are the backbuffer size and the debug text size the renderer reports;
        the source divides by `textWidth`, `textHeight` and the cell size. */
    method Update(pixelWidth: nat, pixelHeight: nat, textWidth: nat, textHeight: nat,
                  mouseX: int, mouseY: int, leftButton: bool)
      requires Valid()
      requires textWidth > 0 && textHeight > 0
      requires pixelWidth / textWidth > 0 && pixelHeight / textHeight > 0
      modifies this, grid
      ensures Valid() && grid == old(grid) && fresh(grid.cells)
      ensures grid.width == textWidth && grid.height == textHeight
      ensures x == CellUnderMouse(mouseX, pixelWidth, textWidth)
      ensures y == CellUnderMouse(mouseY, pixelHeight, textHeight)
      ensures CursorInBounds() && brush == old(brush)
      ensures grid.Contents() ==
        var fitted := Resized(old(grid.Contents()), old(grid.width), old(grid.height),
                              textWidth, textHeight);
        if leftButton then Painted(fitted, textWidth, textHeight, x, y, brush)
        else fitted
    {
      grid.Resize(textWidth, textHeight);
      x := CellUnderMouse(mouseX, pixelWidth, textWidth);
      y := CellUnderMouse(mouseY, pixelHeight, textHeight);
      Paint(leftButton);
    }
  }

  /** C++ `/` on `int`: the quotient is truncated toward zero, so it has the
      sign of `a` and `q * b` lies between 0 and `a`, less than `b` away from `a`. */
  function CDiv(a: int, b: int): (q: int)
    requires b > 0
    ensures a >= 0 ==> 0 <= q * b <= a < q * b + b
    ensures a < 0 ==> q * b - b < a <= q * b <= 0
  {
    if a >= 0 then
      DivBounds(a, b);
      a / b
    else
      DivBounds(-a, b);
      assert -((-a) / b) * b == -(((-a) / b) * b);
      -((-a) / b)
  }

  /** For non-negative `a`, `(a / b) * b` is the largest multiple of `b` not above `a`. */
  lemma DivBounds(a: nat, b: nat)
    requires b > 0
    ensures 0 <= (a / b) * b <= a < (a / b) * b + b
  {
    MulMonotone(0, a / b, b);
  }

  /** The mouse-to-cell conversion of `update` as written: the pixel
      coordinate plus half a cell, divided by the cell size, where the cell
      size is the pixel extent divided by the number of text cells. */
  function RoundedCell(mouse: int, extent: nat, cells: nat): (r: int)
    requires cells > 0 && extent / cells > 0
    ensures var size := extent / cells;
      mouse >= 0 ==> r >= 0 && r * size - size / 2 <= mouse < r * size + size - size / 2
  {
    var size := extent / cells;
    CDiv(mouse + size / 2, size)
  }

  /** On a 1280-pixel-wide backbuffer with 160 text columns, a mouse four
      pixels from the right edge maps to column 160, one past the last
      column: `operator()` is then called out of bounds. */
  lemma RoundedCellOffGrid()
    ensures RoundedCell(1276, 1280, 160) == 160
  {
  }

  /** The cell under the mouse, kept inside the grid: the rounded cell
      clamped to `0 .. cells - 1`. Wherever the rounding lands on the grid the
      result is the same. */
  function CellUnderMouse(mouse: int, extent: nat, cells: nat): (c: int)
    requires cells > 0 && extent / cells > 0
    ensures 0 <= c < cells
    ensures 0 <= RoundedCell(mouse, extent, cells) < cells ==> c == RoundedCell(mouse, extent, cells)
  {
    var r := RoundedCell(mouse, extent, cells);
    if r < 0 then 0 else if r >= cells then cells - 1 else r
  }
}
