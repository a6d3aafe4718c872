/** The types the language rules are written against: the closed set of
    plural categories and the CLDR operand record. Extracting operands from a
    number is not part of this model; it is passed in as a function. */
module Plural {

  /** A CLDR plural category. `Invalid` is only ever returned together with
      an error, when operands could not be extracted from a number. */
  datatype Category = Invalid | Zero | One | Two | Few | Many | Other

  /** The integer operands of Unicode Technical Standard #35, Part 3
      (Numbers), section "Operands":
        i  the integer digits of the number,
        v  the number of visible fraction digits, with trailing zeros,
        w  the number of visible fraction digits, without trailing zeros,
        f  the visible fraction digits, with trailing zeros, as an integer,
        t  the visible fraction digits, without trailing zeros, as an integer.
      The real-valued operand n is never consulted by the rules modelled here. */
  datatype Operands = Operands(i: nat, v: nat, w: nat, f: nat, t: nat)

  /** The error reported when a number cannot be turned into operands. */
  datatype OperandsError = InvalidNumber(reason: string)
}
