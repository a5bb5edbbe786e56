/** The tokens the equation module consumes. The tokenizer that produces them
    is not part of this model: a token is reduced to its role and the exponent
    field the tokenizer attaches to it. The three role tests below stand for
    `token::is_indeterminate`, `token::is_equal` and `token::is_separator_op`,
    whose definitions are not part of this model; they are assumed to test the
    role alone, the additive separators being `+` and `-`. */
module Tokens {

  datatype Role = Number | Indeterminate | Plus | Minus | Multiply | Caret | Equal

  /** `exponent` is a `u32` in the source; no arithmetic is done on it, so its
      width does not matter here. */
  datatype Token = Token(role: Role, exponent: nat)

  /** Stands for `token::is_indeterminate`: assumed to hold of the unknown `X` alone. */
  predicate IsIndeterminate(t: Token): (r: bool)
    ensures r <==> t.role == Indeterminate
  {
    t.role == Indeterminate
  }

  /** Stands for `token::is_equal`: assumed to hold of the equality sign alone. */
  predicate IsEqual(t: Token): (r: bool)
    ensures r <==> t.role == Equal
  {
    t.role == Equal
  }

  /** Stands for `token::is_separator_op`: assumed to hold of the additive
      operators `+` and `-` alone, which separate the members of one side. */
  predicate IsSeparatorOp(t: Token): (r: bool)
    ensures r <==> t.role in {Plus, Minus}
  {
    t.role == Plus || t.role == Minus
  }
}
