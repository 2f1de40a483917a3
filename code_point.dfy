/** The characters the interpreter gives a meaning to. The ASCII ones are
    written as character literals; the extended ones by code point. */
module CodePoints {

  const POUND_SIGN: int := 0xA3                                   // £ over
  const SECTION_SIGN: int := 0xA7                                 // § depth
  const LEFT_POINTING_DOUBLE_ANGLE_QUOTATION_MARK: int := 0xAB    // « lshift
  const RIGHT_POINTING_DOUBLE_ANGLE_QUOTATION_MARK: int := 0xBB   // » rshift
  const INVERTED_QUESTION_MARK: int := 0xBF                       // ¿ if-then-else
  const LATIN_CAPITAL_LETTER_O_WITH_STROKE: int := 0xD8           // Ø 2dup
  const LATIN_SMALL_LETTER_SHARP_S: int := 0xDF                   // ß flush
  const DIVISION_SIGN: int := 0xF7                                // ÷ /MOD
  const LATIN_SMALL_LETTER_O_WITH_STROKE: int := 0xF8             // ø pick
  const PER_MILLE_SIGN: int := 0x2030                             // ‰ nip
  const EURO_SIGN: int := 0x20AC                                  // € tuck
  const INTEGRAL: int := 0x222B                                   // ∫ assert
  const NOT_EQUAL_TO: int := 0x2260                               // ≠
  const LESS_THAN_OR_EQUAL_TO: int := 0x2264                      // ≤
  const GREATER_THAN_OR_EQUAL_TO: int := 0x2265                   // ≥
  const XOR: int := 0x22BB                                        // ⊻ xor
}
