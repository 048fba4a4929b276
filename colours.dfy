/** Raylib's `Color`: four unsigned 8-bit channels, and the named colours the
    game manager uses. */
module Colours {

  newtype byte = x: int | 0 <= x < 256

  datatype Colour = Colour(r: byte, g: byte, b: byte, a: byte)

  /** Raylib's `WHITE`, fully opaque. */
  const WHITE := Colour(255, 255, 255, 255)

  /** Raylib's `RED`, fully opaque. */
  const RED := Colour(230, 41, 55, 255)

  /** The zero-initialised `(Color){0}`: fully transparent. */
  const BLANK := Colour(0, 0, 0, 0)
}
