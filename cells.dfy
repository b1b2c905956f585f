/** The character cell of the debug-text grid and the brush transitions on it
    (examples/00-helloworld/helloworld.cpp). */
module Cells {

  /** An `uint8_t`. */
  type Byte = b: int | 0 <= b < 256

  /** The value range of a 4-bit unsigned bitfield. */
  type Nibble = n: int | 0 <= n < 16

  /** `CharacterCell`: a character code with a 4-bit foreground and a 4-bit
      background colour index. */
  datatype Cell = Cell(character: Byte, foreground: Nibble, background: Nibble)

  /** The zero cell `{ 0x00, 0x0, 0x0 }` that `resize` fills the grid with. */
  const Blank: Cell := Cell(0, 0, 0)

  /** The brush the example starts with: `'a'` in colour 0xF on colour 0x0. */
  const InitialBrush: Cell := Cell(97, 15, 0)

  /** Storing an `int` into a 4-bit unsigned bitfield keeps the low four bits:
      the stored value is the one nibble congruent to `v` modulo 16. */
  function ToNibble(v: int): (n: Nibble)
    ensures (v - n) % 16 == 0
    ensures 0 <= v < 16 ==> n == v
  {
    v % 16
  }

  /** The `[` handler: the foreground index goes up by one and wraps from 15 to 0. */
  function ForegroundUp(c: Cell): (r: Cell)
    ensures r.foreground == if c.foreground == 15 then 0 else c.foreground + 1
    ensures r.character == c.character && r.background == c.background
  {
    c.(foreground := ToNibble(c.foreground + 1))
  }

  /** The `]` handler: the foreground index goes down by one and wraps from 0 to 15. */
  function ForegroundDown(c: Cell): (r: Cell)
    ensures r.foreground == if c.foreground == 0 then 15 else c.foreground - 1
    ensures r.character == c.character && r.background == c.background
  {
    c.(foreground := ToNibble(c.foreground - 1))
  }

  /** `[` undoes `]`. */
  lemma UpUndoesDown(c: Cell)
    ensures ForegroundUp(ForegroundDown(c)) == c
  {
  }

  /** `]` undoes `[`. */
  lemma DownUndoesUp(c: Cell)
    ensures ForegroundDown(ForegroundUp(c)) == c
  {
  }

  /** The brush after `n` presses of `[`. */
  function PressUp(c: Cell, n: nat): Cell
  {
    if n == 0 then c else ForegroundUp(PressUp(c, n - 1))
  }

  /** `n` presses of `[` add `n` to the foreground modulo 16 and touch nothing else. */
  lemma {:induction false} PressUpForeground(c: Cell, n: nat)
    ensures PressUp(c, n).foreground == (c.foreground + n) % 16
    ensures PressUp(c, n).character == c.character
    ensures PressUp(c, n).background == c.background
  {
    if n > 0 {
      PressUpForeground(c, n - 1);
    }
  }

  /** The foreground cycles through all sixteen colours: sixteen presses of `[`
      give back the brush. */
  lemma PressUpCycle(c: Cell)
    ensures PressUp(c, 16) == c
  {
    PressUpForeground(c, 16);
  }
}
