/** `Map`, the row-major character grid of the example
    (examples/00-helloworld/helloworld.cpp:83-116), and the specification of
    its operations on plain sequences. */
module Grid {
  import opened Cells

  // ---------------------------------------------------------------------------
  // Row-major indexing
  // ---------------------------------------------------------------------------

  /** The flat position of cell `(x, y)` in a grid `w` cells wide. */
  function Index(w: nat, x: nat, y: nat): nat
  {
    y * w + x
  }

  lemma MulMonotone(a: nat, b: nat, c: nat)
    requires a <= b
    ensures a * c <= b * c
  {
  }

  /** Every in-bounds coordinate lands inside a `w * h` buffer. */
  lemma IndexInRange(w: nat, h: nat, x: nat, y: nat)
    requires x < w && y < h
    ensures Index(w, x, y) < w * h
  {
    MulMonotone(y + 1, h, w);
  }

  /** Distinct in-bounds coordinates never share a buffer position. */
  lemma IndexInjective(w: nat, x: nat, y: nat, x': nat, y': nat)
    requires x < w && x' < w
    requires Index(w, x, y) == Index(w, x', y')
    ensures x == x' && y == y'
  {
    if y < y' {
      MulMonotone(y + 1, y', w);
      assert false;
    } else if y' < y {
      MulMonotone(y' + 1, y, w);
      assert false;
    }
  }

  /** Every buffer position is the position of one in-bounds coordinate,
      namely `(i % w, i / w)`. */
  lemma Decompose(w: nat, h: nat, i: nat)
    requires i < w * h
    ensures w > 0 && i % w < w && i / w < h
    ensures Index(w, i % w, i / w) == i
  {
    if i / w >= h {
      MulMonotone(h, i / w, w);
      assert false;
    }
  }

  /** `s` is a buffer for a `w` by `h` grid. */
  predicate IsGrid(s: seq<Cell>, w: nat, h: nat)
  {
    |s| == w * h
  }

  /** The cell at `(x, y)`: the value `operator()` reads. */
  function CellAt(s: seq<Cell>, w: nat, h: nat, x: nat, y: nat): (c: Cell)
    requires IsGrid(s, w, h) && x < w && y < h
    ensures c in s
  {
    IndexInRange(w, h, x, y);
    s[Index(w, x, y)]
  }

  // ---------------------------------------------------------------------------
  // Specification of resize and of a single-cell write
  // ---------------------------------------------------------------------------

  /** Cell `i` of a grid `w` wide after resizing an `ow` by `oh` grid `s`. */
  function ResizedCell(s: seq<Cell>, ow: nat, oh: nat, w: nat, i: nat): Cell
    requires IsGrid(s, ow, oh) && w > 0
  {
    var x, y := i % w, i / w;
    if x < ow && y < oh then CellAt(s, ow, oh, x, y) else Blank
  }

  /** The contents of an `ow` by `oh` grid `s` after `resize(w, h)`: the
      overlapping top-left rectangle keeps its cells, everything else is the
      zero cell. */
  function Resized(s: seq<Cell>, ow: nat, oh: nat, w: nat, h: nat): (r: seq<Cell>)
    requires IsGrid(s, ow, oh)
    ensures IsGrid(r, w, h)
    ensures forall x: nat, y: nat {:trigger CellAt(r, w, h, x, y)} :: x < w && y < h ==>
      CellAt(r, w, h, x, y) == if x < ow && y < oh then CellAt(s, ow, oh, x, y) else Blank
  {
    var r := seq(w * h, i requires 0 <= i < w * h =>
                          Decompose(w, h, i); ResizedCell(s, ow, oh, w, i));
    forall x: nat, y: nat | x < w && y < h
      ensures CellAt(r, w, h, x, y) == if x < ow && y < oh then CellAt(s, ow, oh, x, y) else Blank
    {
      var i := Index(w, x, y);
      IndexInRange(w, h, x, y);
      Decompose(w, h, i);
      IndexInjective(w, x, y, i % w, i / w);
    }
    r
  }

  /** The contents of grid `s` after cell `(x, y)` is assigned `c`: that cell
      holds `c` and every other cell is unchanged. */
  function Painted(s: seq<Cell>, w: nat, h: nat, x: nat, y: nat, c: Cell): (r: seq<Cell>)
    requires IsGrid(s, w, h) && x < w && y < h
    ensures IsGrid(r, w, h)
    ensures CellAt(r, w, h, x, y) == c
    ensures forall x': nat, y': nat {:trigger CellAt(r, w, h, x', y')} ::
      x' < w && y' < h && (x' != x || y' != y) ==> CellAt(r, w, h, x', y') == CellAt(s, w, h, x', y')
  {
    IndexInRange(w, h, x, y);
    var r := s[Index(w, x, y) := c];
    forall x': nat, y': nat | x' < w && y' < h && (x' != x || y' != y)
      ensures CellAt(r, w, h, x', y') == CellAt(s, w, h, x', y')
    {
      PaintedElsewhere(s, w, h, x, y, c, x', y');
    }
    r
  }

  /** A write at `(x, y)` does not reach any other in-bounds cell. */
  lemma PaintedElsewhere(s: seq<Cell>, w: nat, h: nat, x: nat, y: nat, c: Cell, x': nat, y': nat)
    requires IsGrid(s, w, h) && x < w && y < h && x' < w && y' < h
    requires x' != x || y' != y
    ensures Index(w, x, y) < |s|
    ensures CellAt(s[Index(w, x, y) := c], w, h, x', y') == CellAt(s, w, h, x', y')
  {
    IndexInRange(w, h, x, y);
    IndexInRange(w, h, x', y');
    if Index(w, x', y') == Index(w, x, y) {
      IndexInjective(w, x, y, x', y');
    }
  }

  /** Two grids of one shape are equal when all their cells are. */
  lemma {:induction false} GridExtensionality(r: seq<Cell>, s: seq<Cell>, w: nat, h: nat)
    requires IsGrid(r, w, h) && IsGrid(s, w, h)
    requires forall x: nat, y: nat {:trigger CellAt(r, w, h, x, y)} :: x < w && y < h ==>
      CellAt(r, w, h, x, y) == CellAt(s, w, h, x, y)
    ensures r == s
  {
    forall i | 0 <= i < |r| ensures r[i] == s[i] {
      Decompose(w, h, i);
      assert CellAt(r, w, h, i % w, i / w) == CellAt(s, w, h, i % w, i / w);
    }
  }

  /** Resizing to the current dimensions leaves every cell as it was. */
  lemma ResizedSameSize(s: seq<Cell>, w: nat, h: nat)
    requires IsGrid(s, w, h)
    ensures Resized(s, w, h, w, h) == s
  {
    GridExtensionality(Resized(s, w, h, w, h), s, w, h);
  }

  /** Growing a grid and shrinking it back restores it: nothing of the
      original is lost by enlarging. */
  lemma ResizeGrowShrink(s: seq<Cell>, ow: nat, oh: nat, w: nat, h: nat)
    requires IsGrid(s, ow, oh) && ow <= w && oh <= h
    ensures Resized(Resized(s, ow, oh, w, h), w, h, ow, oh) == s
  {
    var t := Resized(s, ow, oh, w, h);
    var u := Resized(t, w, h, ow, oh);
    forall x: nat, y: nat | x < ow && y < oh
      ensures CellAt(u, ow, oh, x, y) == CellAt(s, ow, oh, x, y)
    {
      assert CellAt(u, ow, oh, x, y) == CellAt(t, w, h, x, y);
    }
    GridExtensionality(u, s, ow, oh);
  }

  /** Shrinking a grid and growing it back keeps the surviving rectangle and
      leaves the zero cell wherever the shrink cut the grid. */
  lemma ResizeShrinkGrow(s: seq<Cell>, ow: nat, oh: nat, w: nat, h: nat)
    requires IsGrid(s, ow, oh) && w <= ow && h <= oh
    ensures var u := Resized(Resized(s, ow, oh, w, h), w, h, ow, oh);
      forall x: nat, y: nat {:trigger CellAt(u, ow, oh, x, y)} :: x < ow && y < oh ==>
        CellAt(u, ow, oh, x, y) == if x < w && y < h then CellAt(s, ow, oh, x, y) else Blank
  {
    var t := Resized(s, ow, oh, w, h);
    var u := Resized(t, w, h, ow, oh);
    forall x: nat, y: nat | x < ow && y < oh && x < w && y < h
      ensures CellAt(u, ow, oh, x, y) == CellAt(s, ow, oh, x, y)
    {
      assert CellAt(u, ow, oh, x, y) == CellAt(t, w, h, x, y);
    }
  }

  // ---------------------------------------------------------------------------
  // Progress of the copy loops in `resize`
  // ---------------------------------------------------------------------------

  /** `b`, a `w` by `h` grid, holds the zero cell everywhere except in the
      first `cols` columns of rows `0 .. y - 1` and the first `x` cells of row
      `y`, which hold the cells of `s` (an `ow` by `oh` grid) at the same
      coordinates. */
  ghost predicate Copied(b: seq<Cell>, s: seq<Cell>, ow: nat, oh: nat, w: nat, h: nat,
                         cols: nat, y: nat, x: nat)
    requires IsGrid(b, w, h) && IsGrid(s, ow, oh) && cols <= ow && cols <= w
    requires y < oh || (y == oh && x == 0)
  {
    forall x': nat, y': nat {:trigger CellAt(b, w, h, x', y')} :: x' < w && y' < h ==>
      CellAt(b, w, h, x', y') ==
        if x' < cols && (y' < y || (y' == y && x' < x)) then CellAt(s, ow, oh, x', y') else Blank
  }

  /** A freshly zero-filled buffer has nothing copied yet. */
  lemma CopiedNothing(b: seq<Cell>, s: seq<Cell>, ow: nat, oh: nat, w: nat, h: nat, cols: nat)
    requires IsGrid(b, w, h) && IsGrid(s, ow, oh) && cols <= ow && cols <= w
    requires forall i | 0 <= i < |b| :: b[i] == Blank
    ensures Copied(b, s, ow, oh, w, h, cols, 0, 0)
  {
    forall x': nat, y': nat | x' < w && y' < h
      ensures CellAt(b, w, h, x', y') == Blank
    {
      IndexInRange(w, h, x', y');
    }
  }

  /** Copying cell `(x, y)` extends the copied region by that one cell. */
  lemma CopyStep(b: seq<Cell>, s: seq<Cell>, ow: nat, oh: nat, w: nat, h: nat,
                 cols: nat, y: nat, x: nat)
    requires IsGrid(b, w, h) && IsGrid(s, ow, oh) && cols <= ow && cols <= w
    requires x < cols && y < oh && y < h
    requires Copied(b, s, ow, oh, w, h, cols, y, x)
    ensures Copied(Painted(b, w, h, x, y, CellAt(s, ow, oh, x, y)), s, ow, oh, w, h, cols, y, x + 1)
  {
  }

  /** A finished row is the same as a row not yet started one row down. */
  lemma CopiedRow(b: seq<Cell>, s: seq<Cell>, ow: nat, oh: nat, w: nat, h: nat, cols: nat, y: nat)
    requires IsGrid(b, w, h) && IsGrid(s, ow, oh) && cols <= ow && cols <= w && y < oh
    requires Copied(b, s, ow, oh, w, h, cols, y, cols)
    ensures Copied(b, s, ow, oh, w, h, cols, y + 1, 0)
  {
  }

  /** Once every overlapping row is copied the buffer is the resized grid. */
  lemma CopiedAll(b: seq<Cell>, s: seq<Cell>, ow: nat, oh: nat, w: nat, h: nat)
    requires IsGrid(b, w, h) && IsGrid(s, ow, oh)
    requires Copied(b, s, ow, oh, w, h, if w < ow then w else ow, if h < oh then h else oh, 0)
    ensures b == Resized(s, ow, oh, w, h)
  {
    GridExtensionality(b, Resized(s, ow, oh, w, h), w, h);
  }

  // ---------------------------------------------------------------------------
  // The grid object
  // ---------------------------------------------------------------------------

  /** `Map`: a width, a height and a flat row-major buffer of cells. */
  class Map {
    var width: nat
    var height: nat
    var cells: array<Cell>

    /** The buffer holds exactly `width * height` cells. */
    ghost predicate Valid()
      reads this
    {
      cells.Length == width * height
    }

    /** The buffer's contents. */
    ghost function Contents(): seq<Cell>
      reads this, cells
    {
      cells[..]
    }

    /** `Map()`: an empty 0 by 0 grid. */
    constructor ()
      ensures Valid() && fresh(cells)
      ensures width == 0 && height == 0 && Contents() == []
    {
      width, height := 0, 0;
      cells := new Cell[0];
    }

    /** `operator()(x, y)`: the cell at `(x, y)`, for in-bounds coordinates
        only; it reads this grid and its buffer and nothing else. */
    function At(x: nat, y: nat): (c: Cell)
      reads this, cells
      requires Valid() && x < width && y < height
      ensures c == CellAt(Contents(), width, height, x, y)
    {
      IndexInRange(width, height, x, y);
      cells[Index(width, x, y)]
    }

    /** Assignment through the reference `operator()(x, y)` returns. */
    method Set(x: nat, y: nat, c: Cell)
      requires Valid() && x < width && y < height
      modifies cells
      ensures Valid()
      ensures Contents() == Painted(old(Contents()), width, height, x, y, c)
    {
      IndexInRange(width, height, x, y);
      cells[Index(width, x, y)] := c;
    }

    /** `resize(w, h)`: snapshot the old buffer, resize it to `w * h` zero
        cells, copy back the overlapping top-left rectangle row by row, then
        record the new dimensions. */
    method Resize(w: nat, h: nat)
      requires Valid()
      modifies this
      ensures Valid() && fresh(cells)
      ensures width == w && height == h
      ensures Contents() == Resized(old(Contents()), old(width), old(height), w, h)
    {
      var temp := cells[..];
      var ow, oh := width, height;
      var buffer := new Cell[w * h](_ => Blank);
      var rows := if h < oh then h else oh;
      var cols := if w < ow then w else ow;
      CopiedNothing(buffer[..], temp, ow, oh, w, h, cols);
      var y := 0;
      while y < rows
        invariant 0 <= y <= rows
        invariant IsGrid(buffer[..], w, h)
        invariant Copied(buffer[..], temp, ow, oh, w, h, cols, y, 0)
      {
        var x := 0;
        while x < cols
          invariant 0 <= x <= cols
          invariant IsGrid(buffer[..], w, h)
          invariant Copied(buffer[..], temp, ow, oh, w, h, cols, y, x)
        {
          IndexInRange(w, h, x, y);
          IndexInRange(ow, oh, x, y);
          ghost var before := buffer[..];
          buffer[Index(w, x, y)] := temp[Index(ow, x, y)];
          assert buffer[..] == Painted(before, w, h, x, y, CellAt(temp, ow, oh, x, y));
          CopyStep(before, temp, ow, oh, w, h, cols, y, x);
          x := x + 1;
        }
        CopiedRow(buffer[..], temp, ow, oh, w, h, cols, y);
        y := y + 1;
      }
      CopiedAll(buffer[..], temp, ow, oh, w, h);
      cells := buffer;
      width, height := w, h;
    }
  }
}
