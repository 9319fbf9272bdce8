/**
 * `Position`: a (line, character) pair of `size_t` values, defaulting to the
 * largest value of each, with the member-wise (lexicographic) three-way
 * comparison the defaulted `operator<=>` gives.
 */
module Positions {

  /** The largest `size_t` (64-bit target). */
  const SIZE_MAX: int := 0xFFFF_FFFF_FFFF_FFFF

  type SizeT = x: int | 0 <= x <= SIZE_MAX

  datatype Position = Position(line: SizeT, character: SizeT)

  /** A default-constructed position: (max_line, max_character). */
  const DEFAULT: Position := Position(SIZE_MAX, SIZE_MAX)

  /** The result of a three-way comparison of positions. */
  datatype Ordering = Less | Equal | Greater

  /**
   * A position read as one number with the line as high digit and the
   * character as low digit, base 2^64. Ordering positions is ordering these
   * numbers.
   */
  function Key(p: Position): (k: int)
  {
    p.line * (SIZE_MAX + 1) + p.character
  }

  /** The defaulted `operator<=>`: compare lines, then characters. */
  function Compare(a: Position, b: Position): (r: Ordering)
    ensures r == Less <==> Key(a) < Key(b)
    ensures r == Equal <==> a == b
    ensures r == Greater <==> Key(b) < Key(a)
  {
    if a.line < b.line then Less
    else if b.line < a.line then Greater
    else if a.character < b.character then Less
    else if b.character < a.character then Greater
    else Equal
  }

  predicate Lt(a: Position, b: Position)
  {
    Compare(a, b) == Less
  }

  predicate Le(a: Position, b: Position)
  {
    Compare(a, b) != Greater
  }

  /** Distinct positions have distinct keys, so the order is total and strict. */
  lemma CompareTotal(a: Position, b: Position)
    ensures Key(a) == Key(b) <==> a == b
    ensures Lt(a, b) || a == b || Lt(b, a)
    ensures !(Lt(a, b) && Lt(b, a))
    ensures Lt(a, b) <==> Compare(b, a) == Greater
  {
  }

  lemma LtTransitive(a: Position, b: Position, c: Position)
    requires Lt(a, b) && Lt(b, c)
    ensures Lt(a, c)
  {
  }

  lemma LeTransitive(a: Position, b: Position, c: Position)
    requires Le(a, b) && Le(b, c)
    ensures Le(a, c)
  {
  }

  /** The default position is the greatest one. */
  lemma DefaultIsGreatest(p: Position)
    ensures Le(p, DEFAULT)
    ensures p != DEFAULT ==> Lt(p, DEFAULT)
  {
  }

  /** The three checks the header states at compile time. */
  lemma DeclaredChecks()
    ensures Compare(Position(5, 1), Position(4, 1)) == Greater
    ensures Compare(Position(5, 1), Position(5, 2)) == Less
    ensures Compare(Position(5, 2), Position(5, 2)) == Equal
  {
  }
}
