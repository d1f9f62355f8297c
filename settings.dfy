/** The configuration keys the per-frame pipeline reads (`config.json`
    merged over each script's defaults). */
module Settings {

  datatype Config = Config(
    sizeX: int,
    sizeY: int,
    averageFrames: int,
    blackBarSearchHeight: int,
    blackBarCandidateLength: int,
    colourDivisor: int,
    input: int)

  /** A configuration under which a tick never divides by zero, never
      indexes outside the raster and never evicts from an empty history:
      positive sizes, divisor and window lengths, and a probe that stays
      above the last row, so that the bars it finds are rows of the raster. */
  predicate Sane(c: Config)
  {
    && c.sizeX >= 1 && c.sizeY >= 1
    && c.averageFrames >= 1
    && 0 <= c.blackBarSearchHeight <= c.sizeY - 1
    && c.blackBarCandidateLength >= 1
    && c.colourDivisor >= 1
  }

  /** The defaults of the CoreGraphics script; `input` has none. */
  function OsxDefaults(input: int): (c: Config)
    ensures c.input == input && Sane(c)
    ensures 2 * c.blackBarSearchHeight <= c.sizeY
  {
    Config(46, 26, 32, 8, 1024, 2, input)
  }

  /** The defaults of the GTK script; `input` has none. */
  function GtkDefaults(input: int): (c: Config)
    ensures c.input == input && Sane(c)
    ensures 2 * c.blackBarSearchHeight <= c.sizeY
  {
    Config(46, 26, 16, 8, 1024, 2, input)
  }

  lemma DefaultsAreSane(input: int)
    ensures Sane(OsxDefaults(input)) && Sane(GtkDefaults(input))
  {
  }
}
