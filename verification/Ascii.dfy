/** The character codes the drivers treat specially. */
module Ascii {
  const BACKSPACE: bv8 := 0x08
  const TAB: bv8 := 0x09
  const LF: bv8 := 0x0A
  const CR: bv8 := 0x0D
  const SPACE: bv8 := 0x20
  const PERCENT: bv8 := 0x25
  const MINUS: bv8 := 0x2D
  const LETTER_D: bv8 := 0x64
  const LETTER_S: bv8 := 0x73
  const LETTER_U: bv8 := 0x75
  const LETTER_X: bv8 := 0x78
}
