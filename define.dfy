/** The layout constants of the game font. Their values live in a source file
    that is not part of this model, so they are left unspecified here; the
    model assumes only the signs stated by their types. */
module Define {
  type Positive = n: int | n >= 1 witness 1
  type AtLeastTwo = n: int | n >= 2 witness 2

  /** Extra width a bold glyph takes. */
  const BOLD_PAD: Positive
  /** Width of a space glyph as the alignment solvers count it; also the
      width given to a fully transparent glyph cell. */
  const SPACE_WIDTH: Positive
  /** Horizontal gap between two glyphs. It is at least two because the exact
      padding solver halves it and divides by the half. */
  const CHAR_HORIZON_PADDING: AtLeastTwo
  /** Extra width a line ending in italic takes. */
  const ITALIC_CHAR_HORIZON_PADDING: Positive
}
