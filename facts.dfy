/** The values the coordinate table is made of. */
module Facts {

  /** One outline point, in font design units. */
  datatype Point = Point(x: int, y: int)

  /** The raw contour point list of a glyph; order is significant. */
  type Outline = seq<Point>

  /** "This outline, seen in some font, stands for the character `ch`".
      The label is a string rather than a single character because a fact
      learned from a failed slow match carries the empty string. */
  datatype Fact = Fact(ch: string, outline: Outline)

  /** The coordinate table: a list of facts. */
  type Table = seq<Fact>

  /** The placeholder glyph code and its label in the table; it is
      excluded from all matching. */
  const PlaceholderCode: char := 'x'
  const PlaceholderLabel: string := "x"
}
