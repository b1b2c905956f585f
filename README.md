# The character-grid editor of bgfx's `00-helloworld` example

`examples/00-helloworld/helloworld.cpp` turns bgfx's debug-text overlay into a
tiny ASCII-art paint tool. Its editor state is:

- a `Map`: a width, a height and a flat row-major `std::vector` of
  `CharacterCell`s. Each cell holds an 8-bit character, a 4-bit foreground
  colour and a 4-bit background colour;
- the cell under the mouse, `(m_x, m_y)`;
- a brush cell, `m_brush`.

Each frame, `update` resizes the grid to the debug-text area. While the left
button is down, it also writes the brush into the cell under the mouse. The `[`
and `]` keys step the brush's foreground colour up and down, wrapping in four
bits. The `,` handler picks up the cell under the mouse as the new brush.

The Dafny model has three modules:

- `Cells` (`cells.dfy`): the cell datatype, storing into a 4-bit bitfield, and
  the brush transitions as functions. It includes the lemmas that `[` and `]`
  undo each other and that sixteen `[` presses cycle back to the start.
- `Grid` (`grid.dfy`): the row-major index arithmetic, with lemmas that it
  stays in range and is one-to-one. It specifies `resize` and a single-cell
  write as functions on sequences (`Resized`, `Painted`). The class `Map`
  keeps its buffer in an `array`. `Map.Resize` runs the source's nested copy
  loops and is proved to produce exactly `Resized`.
- `HelloWorld` (`helloworld.dfy`): the class `ExampleHelloWorld` with the brush,
  cursor and grid fields, and the handlers that mutate them in place. It also
  has the editor part of `update` and the mouse-to-cell conversion (see
  Findings).

## Model

| member | source | states |
|---|---|---|
| `Cells.ToNibble` | examples/00-helloworld/helloworld.cpp:77-82 | A value stored into a 4-bit unsigned bitfield becomes the one nibble congruent to it modulo 16; values already in 0..15 are kept |
| `Cells.ForegroundUp` | examples/00-helloworld/helloworld.cpp:127-130 | `[` raises the foreground by one, wrapping from 15 to 0; character and background unchanged |
| `Cells.ForegroundDown` | examples/00-helloworld/helloworld.cpp:132-135 | `]` lowers the foreground by one, wrapping from 0 to 15; character and background unchanged |
| `Cells.UpUndoesDown` | examples/00-helloworld/helloworld.cpp:127-135 | `]` followed by `[` restores the brush |
| `Cells.DownUndoesUp` | examples/00-helloworld/helloworld.cpp:127-135 | `[` followed by `]` restores the brush |
| `Cells.PressUpForeground` | examples/00-helloworld/helloworld.cpp:127-130 | `n` presses of `[` add `n` to the foreground modulo 16 and change nothing else |
| `Cells.PressUpCycle` | examples/00-helloworld/helloworld.cpp:127-130 | Sixteen presses of `[` give back the original brush |
| `Grid.IndexInRange` | examples/00-helloworld/helloworld.cpp:104-115 | For `x < width` and `y < height`, the position `y * width + x` lies inside a `width * height` buffer |
| `Grid.IndexInjective` | examples/00-helloworld/helloworld.cpp:104-115 | Two in-bounds coordinates with the same row-major position are the same coordinate |
| `Grid.Decompose` | examples/00-helloworld/helloworld.cpp:93-103 | Every position `i` of a `w * h` buffer is the row-major position of the in-bounds cell `(i % w, i / w)` |
| `Grid.CellAt` | examples/00-helloworld/helloworld.cpp:104-115 | The in-bounds lookup returns a cell of the buffer |
| `Grid.Resized` | examples/00-helloworld/helloworld.cpp:93-103 | After resizing to `w` by `h`, the buffer holds `w * h` cells. Each cell in the overlapping top-left rectangle equals the old cell at the same coordinates; every other cell is the zero cell |
| `Grid.Painted` | examples/00-helloworld/helloworld.cpp:184-187 | After writing `c` at `(x, y)`, that cell is `c`, every other cell is unchanged, and the grid's shape is unchanged |
| `Grid.PaintedElsewhere` | examples/00-helloworld/helloworld.cpp:186 | A write at one in-bounds coordinate does not reach any other in-bounds coordinate |
| `Grid.GridExtensionality` | examples/00-helloworld/helloworld.cpp:104-115 | Two buffers of one shape whose lookups agree at every coordinate are equal |
| `Grid.ResizedSameSize` | examples/00-helloworld/helloworld.cpp:93-103 | Resizing to the current dimensions leaves every cell unchanged |
| `Grid.ResizeGrowShrink` | examples/00-helloworld/helloworld.cpp:93-103 | Growing a grid and then shrinking it back to its old size restores it exactly |
| `Grid.ResizeShrinkGrow` | examples/00-helloworld/helloworld.cpp:93-103 | Shrinking a grid and then growing it back keeps the surviving rectangle and zeroes what was cut off |
| `Grid.CopiedNothing` | examples/00-helloworld/helloworld.cpp:96-97 | The zero-filled buffer is the state before the copy loops start |
| `Grid.CopyStep` | examples/00-helloworld/helloworld.cpp:100 | Copying one old cell into the new buffer extends the copied region by exactly that cell |
| `Grid.CopiedRow` | examples/00-helloworld/helloworld.cpp:98-99 | Finishing the inner loop over `x` completes row `y` of the overlap |
| `Grid.CopiedAll` | examples/00-helloworld/helloworld.cpp:98-102 | Once all overlapping rows are copied, the buffer is exactly the resized grid |
| `Grid.Map.constructor` | examples/00-helloworld/helloworld.cpp:88-92 | A new map is 0 by 0 with an empty buffer |
| `Grid.Map.At` | examples/00-helloworld/helloworld.cpp:104-115 | `operator()` requires `0 <= x < width` and `0 <= y < height`, reads only the map and its buffer, and returns the cell at `(x, y)` |
| `Grid.Map.Set` | examples/00-helloworld/helloworld.cpp:104-109 | Assigning through the reference `operator()` returns changes exactly the cell at `(x, y)` |
| `Grid.Map.Resize` | examples/00-helloworld/helloworld.cpp:93-103 | `resize(w, h)` leaves `width == w`, `height == h` and exactly `w * h` cells, whose contents are `Resized` of the old contents |
| `HelloWorld.ExampleHelloWorld.constructor` | examples/00-helloworld/helloworld.cpp:58 | The editor starts with an empty grid, the cursor at `(0, 0)` and the brush `'a'` in colour 0xF on colour 0x0 |
| `HelloWorld.ExampleHelloWorld.LeftBracket` | examples/00-helloworld/helloworld.cpp:127-130 | The `[` handler replaces the brush by `ForegroundUp` of it and touches no other field |
| `HelloWorld.ExampleHelloWorld.RightBracket` | examples/00-helloworld/helloworld.cpp:132-135 | The `]` handler replaces the brush by `ForegroundDown` of it and touches no other field |
| `HelloWorld.ExampleHelloWorld.Comma` | examples/00-helloworld/helloworld.cpp:137-140 | With the cursor in bounds, the brush becomes the grid cell under the cursor and the grid is unchanged |
| `HelloWorld.ExampleHelloWorld.Paint` | examples/00-helloworld/helloworld.cpp:184-187 | With the left button down and the cursor in bounds, only the cell under the cursor changes, to the brush. With the button up nothing changes. The brush is unchanged either way |
| `HelloWorld.ExampleHelloWorld.Update` | examples/00-helloworld/helloworld.cpp:173-187 | One frame's editor step: the grid is resized to the text area, the cursor is set to the (clamped) cell under the mouse, and while the left button is down the brush is painted there |
| `HelloWorld.CDiv` | examples/00-helloworld/helloworld.cpp:180-183 | C++ `int` division: the quotient is truncated toward zero, so `q * b` has the sign of `a`, lies between 0 and `a`, and is less than `b` away from `a` |
| `HelloWorld.RoundedCell` | examples/00-helloworld/helloworld.cpp:180-183 | The mouse-to-cell rounding as written, `(m + cw/2) / cw` with `cw = extent / cells` and truncating division: for a non-negative mouse position `m` it gives the non-negative `r` with `r*cw - cw/2 <= m < r*cw + cw - cw/2`, the cell whose left edge is nearest, with no promise that `r` is below `cells` |
| `HelloWorld.RoundedCellOffGrid` | examples/00-helloworld/helloworld.cpp:180-183 | The conversion as written maps mouse x = 1276 on a 1280-pixel, 160-column backbuffer to column 160, outside the grid |
| `HelloWorld.CellUnderMouse` | examples/00-helloworld/helloworld.cpp:180-183 | The corrected conversion always gives a cell in `0 .. cells - 1`, and agrees with the source's rounding wherever that lands on the grid |

## Left out

- The bgfx calls are foreign rendering calls and are not modelled: `init`,
  `setDebug`, `setViewClear`, `setViewRect`, `touch`, `getStats`,
  `dbgTextClear`, `dbgTextImage`, `frame` and `shutdown`. `Update` takes the
  sizes `getStats` reports as parameters.
- The imgui frame (`imguiBeginFrame`, `imguiEndFrame`, `showExampleDialog`) is
  user interface only.
- `entry::processEvents`, the mouse state and the window size fields are
  platform input. `Update` takes the mouse position and button as parameters.
- The input binding table (`m_binding`, `inputAddBindings`) and the static
  trampolines at lines 122-125 are pointer-cast glue. Only the member
  handlers they dispatch to are modelled. The source binds only `[` and `]`
  (lines 59-61). `Comma` and `KeyO` are never registered, so in the program
  as written `Comma` is unreachable. It is modelled anyway.
- `KeyO` only opens a file dialog, which is I/O.
- Grid sizes are `nat`. The source's `int` arithmetic in `width * height`
  can overflow, and a negative size passed to `resize` is not modelled. The
  only caller passes the renderer's unsigned 16-bit text size.
- `Grid.Map.Resize` allocates a new array filled with the zero cell. It does
  not model `std::vector` keeping its storage when the size fits. Snapshotting
  the old contents and filling every cell are modelled.
- `m_x` and `m_y` are uninitialised until the first frame in the source. The
  model's constructor sets them to 0. `Comma` requires them in bounds, as
  `operator()` asserts.
- `Update` uses the corrected mouse-to-cell conversion `CellUnderMouse` (see
  Findings), not the rounding as written.
- `Update` requires non-zero text sizes and cell sizes, because the source
  divides by them.

## Findings

| source | as written | input that shows it | evidently intended | confidence | as-written member | corrected member |
|---|---|---|---|---|---|---|
| examples/00-helloworld/helloworld.cpp:180-186 | `m_x = (mx + cw/2) / cw` with `cw = width / textWidth`, then `m_map(m_x, m_y) = m_brush` while the left button is down | backbuffer width 1280, 160 text columns (`cw = 8`), mouse x = 1276 gives `m_x = 160 = textWidth`, so `operator()`'s bounds assertion fails, or, with assertions compiled out, the write lands in the next row or past the end of the buffer | the painted cell is a cell of the grid (`0 <= m_x < textWidth`, likewise for `m_y`) | medium, not executed | `HelloWorld.RoundedCellOffGrid` (on `HelloWorld.RoundedCell`) | `HelloWorld.CellUnderMouse` (used by `HelloWorld.ExampleHelloWorld.Update`) |
