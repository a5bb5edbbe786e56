# computer_v1 equation module, modelled in Dafny

computer_v1 reads a polynomial equation of degree at most 2 as a sequence of
tokens and is meant to reduce and solve it. This project models the equation
module (`src/equation/mod.rs`) as far as that module is written:

- `get_degree`: the largest `exponent` over all tokens. It fails on an empty
  sequence and when that maximum exceeds 2.
- `get_exponent`: the exponent of the indeterminate next to a position. The
  left neighbour wins over the right one. Both ends of the sequence are errors.
- `parse`: cuts the equation at its equality sign into a left and a right side.
  It hands each side to `parse_sub_vector`, which cuts the side into members at
  its additive operators. It then returns the component template
  `(2, 0.0), (1, 0.0), (0, 0.0)` unchanged.

Files:

- `wrappers.dfy`: `Result`, with `Ok` or an `Err` carrying the source's message text.
- `tokens.dfy`: tokens as a role plus an exponent, and the three role tests.
- `slices.dfy`: Rust's `slice::split` as a function, with its round trip.
- `equation.dfy`: the module itself.

Where the code does not do what a complete solver would need, the model
follows the code:

- A solver needs the highest exponent with a non-zero coefficient; the code
  takes the maximum exponent over every token, whatever its role.
- `parse` performs no reduction. The coefficient accumulation is commented out
  in the source, so every coefficient stays 0.0. The model follows the code.

The role tests `is_indeterminate`, `is_equal` and `is_separator_op` live in the
`token` module, which is not part of this model. They are assumed to test the
token's role only: indeterminate, `=`, and `+` or `-` respectively.

## Model

| member | source | states |
|---|---|---|
| `Tokens.IsIndeterminate` | src/equation/mod.rs:32-34 | assumed: true exactly for a token of role Indeterminate (the unknown `X`) |
| `Tokens.IsEqual` | src/equation/mod.rs:77 | assumed: true exactly for a token of role Equal |
| `Tokens.IsSeparatorOp` | src/equation/mod.rs:56 | assumed: true exactly for a token of role Plus or Minus |
| `Equation.Component` | src/equation/mod.rs:4-7 | a component pairs an exponent (`u32`, here a natural number) with a coefficient (`f64`, here a real number) |
| `Equation.MaxByExponent` | src/equation/mod.rs:10 | `max_by_key` on a non-empty sequence picks a token whose exponent is at least every token's exponent, and on ties it picks the last such token |
| `Equation.GetDegree` | src/equation/mod.rs:9-19 | an empty sequence gives the lookup error; the result is Ok exactly when the sequence is non-empty and every exponent is at most 2; an Ok degree is at most 2, at least every token's exponent (of any role) and equal to some token's exponent; any exponent above 2 gives the "degree should be less or equal to 2" error |
| `Equation.GetDegreeOrderIndependent` | src/equation/mod.rs:10-18 | two token sequences that are permutations of each other have the same degree result |
| `Equation.GetExponent` | src/equation/mod.rs:28-38 | defined wherever the source neither underflows `len() - 1` nor indexes out of bounds; the first and last positions are errors; the result is an error exactly at the ends or when neither neighbour is an indeterminate; an indeterminate on the left gives its exponent whatever is on the right; an Ok result is the exponent of an indeterminate neighbour; every error is "Error while parsing equation" |
| `Equation.GetExponentLocal` | src/equation/mod.rs:32-37 | away from the ends, the result depends only on the three tokens around the position |
| `Equation.ZeroComponents` | src/equation/mod.rs:64-69 | the template has three slots with exponents 2, 1 and 0 in that order, and every coefficient is 0.0 |
| `Equation.EqualitySides` | src/equation/mod.rs:77-79 | needs an equality sign, because the second `unwrap` panics without one; the left side is the prefix before the first equality sign; the right side runs from there to the second equality sign or to the end; neither side holds an equality sign |
| `Equation.EqualitySidesIgnoreTail` | src/equation/mod.rs:77-79 | once the sequence has two equality signs, appending tokens leaves both sides unchanged |
| `Equation.Members` | src/equation/mod.rs:56 | the loop visits one more member than the side has `+`/`-` operators; no member holds an additive operator; joining the members with those operators gives the side back |
| `Equation.ParseSubVector` | src/equation/mod.rs:40-61 | returns Ok whatever the side, the sign argument and the components |
| `Equation.Parse` | src/equation/mod.rs:63-89 | on every equation with an equality sign, returns Ok with components (2, 0.0), (1, 0.0), (0, 0.0) in that order |
| `Slices.Separators` | src/equation/mod.rs:56 | the separators the split drops all satisfy the predicate; there are none exactly when no element satisfies it |
| `Slices.Split` | src/equation/mod.rs:77 | the split yields one piece more than there are separators, and no piece holds a separator |
| `Slices.SplitJoin` | src/equation/mod.rs:56 | joining the pieces with the dropped separators gives back the split slice |
| `Slices.JoinSplit` | src/equation/mod.rs:56 | splitting separator-free pieces joined by separators gives back exactly those pieces and separators, so the split is the only such decomposition |
| `Slices.SplitHead` | src/equation/mod.rs:77-79 | the first piece is the longest separator-free prefix; the separator after it, if any, is followed by the pieces of the rest of the slice |

## Left out

- Console output: the `println!` diagnostics and `token::display_all_slice` have no effect on any result. This includes the members that `parse_sub_vector` prints.
- Panics: the model gives `get_exponent` and `parse` preconditions that exclude the inputs on which the source panics. These are an underflow or an out-of-bounds index in `get_exponent`, and the second `unwrap` in `parse`. A panic is not modelled as a result.
- The commented-out code is not modelled: `get_equal_pos`, the factor and coefficient loop, and `split_at`.
- Coefficient accumulation, reduced-form display and solving are not modelled, because the source does not implement them. `src/main.rs` calls `display_reduced_eq` and `solve`, which the equation module does not define.
- `src/main.rs` is not part of this model: it handles command-line arguments and process plumbing.
- The tokenizer, the syntax checker and the `token` module are not part of this model. Only the role tests are assumed, as described above.
- Coefficients are `f64` in the source and `real` here. Only the constant 0.0 ever occurs.
