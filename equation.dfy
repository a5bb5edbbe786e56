/** The equation module: the degree of a token sequence, the exponent next to
    a position, and the parse step, which splits the equation at its equality
    sign, splits each side into members at its additive operators, and returns
    the three-slot component template for exponents 2, 1 and 0. The template is
    never filled in: every coefficient stays 0.0. */
module Equation {
  import opened Wrappers
  import opened Tokens
  import opened Slices

  const DegreeLookupError := "Error while getting equation degree"
  const DegreeTooHighError := "Error: degree should be less or equal to 2"
  const ParseError := "Error while parsing equation"

  /** One slot of the reduced polynomial: an exponent (`u32` in the source)
      and its coefficient (`f64` in the source). */
  datatype Component = Component(exponent: nat, coeff: real)

  // ---------------------------------------------------------------- degree

  /** `d` is the largest exponent carried by any token, whatever its role. */
  ghost predicate IsMaxExponent(tokens: seq<Token>, d: nat) {
    && (forall i :: 0 <= i < |tokens| ==> tokens[i].exponent <= d)
    && (exists i :: 0 <= i < |tokens| && tokens[i].exponent == d)
  }

  /** `tokens.iter().max_by_key(|x| x.exponent)` on a non-empty sequence: the
      index of a token with the largest exponent, the last such token when
      several share it, as the iterator keeps a later element on ties. */
  function MaxByExponent(tokens: seq<Token>): (i: nat)
    requires |tokens| > 0
    ensures i < |tokens|
    ensures forall j :: 0 <= j < |tokens| ==> tokens[j].exponent <= tokens[i].exponent
    ensures forall j :: i < j < |tokens| ==> tokens[j].exponent < tokens[i].exponent
  {
    if |tokens| == 1 then 0
    else
      var k := MaxByExponent(tokens[..|tokens| - 1]);
      if tokens[|tokens| - 1].exponent >= tokens[k].exponent then |tokens| - 1 else k
  }

  /** `get_degree`: the largest exponent over all tokens, an error for an
      empty sequence, and an error when that largest exponent exceeds 2. */
  function GetDegree(tokens: seq<Token>): (r: Result<nat>)
    ensures |tokens| == 0 ==> r == Err(DegreeLookupError)
    ensures r.Ok? <==> |tokens| > 0 && forall i :: 0 <= i < |tokens| ==> tokens[i].exponent <= 2
    ensures r.Ok? ==> r.value <= 2 && IsMaxExponent(tokens, r.value)
    ensures (exists i :: 0 <= i < |tokens| && tokens[i].exponent > 2) ==> r == Err(DegreeTooHighError)
  {
    if |tokens| == 0 then Err(DegreeLookupError)
    else
      var degree := tokens[MaxByExponent(tokens)].exponent;
      if degree > 2 then Err(DegreeTooHighError) else Ok(degree)
  }

  /** Every token of `a` occurs in `b`. */
  ghost predicate Covers(a: seq<Token>, b: seq<Token>) {
    forall i :: 0 <= i < |a| ==> a[i] in b
  }

  lemma MultisetCovers(a: seq<Token>, b: seq<Token>)
    requires multiset(a) <= multiset(b)
    ensures Covers(a, b)
  {
    forall i | 0 <= i < |a| ensures a[i] in b {
      assert a[i] in multiset(a);
    }
  }

  /** The degree depends only on which tokens occur, not on their order. */
  lemma GetDegreeOrderIndependent(a: seq<Token>, b: seq<Token>)
    requires multiset(a) == multiset(b)
    ensures GetDegree(a) == GetDegree(b)
  {
    assert |a| == |b| by {
      assert |a| == |multiset(a)| && |b| == |multiset(b)|;
    }
    MultisetCovers(a, b);
    MultisetCovers(b, a);
    if GetDegree(a).Ok? && GetDegree(b).Ok? {
      var da, db := GetDegree(a).value, GetDegree(b).value;
      var ia :| 0 <= ia < |a| && a[ia].exponent == da;
      var ib :| 0 <= ib < |b| && b[ib].exponent == db;
      assert a[ia] in b && b[ib] in a;
    }
  }

  // ---------------------------------------------------------------- exponent

  /** The token at `i` exists and is an indeterminate. */
  predicate IndeterminateAt(tokens: seq<Token>, i: int) {
    0 <= i < |tokens| && IsIndeterminate(tokens[i])
  }

  /** The positions at which `get_exponent` neither underflows `len() - 1`
      nor indexes out of bounds: the first position, any position inside the
      sequence, and the position just past the end when the last token is an
      indeterminate (the left neighbour is then read and returned). */
  predicate GetExponentDefined(pos: nat, tokens: seq<Token>) {
    pos == 0 || pos < |tokens| || (pos == |tokens| && IsIndeterminate(tokens[pos - 1]))
  }

  /** `get_exponent`: the exponent of the indeterminate next to `pos`, the
      left neighbour taking precedence over the right one; an error at the
      first and the last position and when neither neighbour is an
      indeterminate. */
  function GetExponent(pos: nat, tokens: seq<Token>): (r: Result<nat>)
    requires GetExponentDefined(pos, tokens)
    ensures r.Err? ==> r == Err(ParseError)
    ensures pos == 0 || pos + 1 == |tokens| ==> r.Err?
    ensures r.Err? <==>
              pos == 0 || pos + 1 == |tokens| ||
              (!IndeterminateAt(tokens, pos - 1) && !IndeterminateAt(tokens, pos + 1))
    ensures pos != 0 && pos + 1 != |tokens| && IndeterminateAt(tokens, pos - 1) ==>
              r == Ok(tokens[pos - 1].exponent)
    ensures r.Ok? ==>
              (IndeterminateAt(tokens, pos - 1) && r.value == tokens[pos - 1].exponent) ||
              (IndeterminateAt(tokens, pos + 1) && r.value == tokens[pos + 1].exponent)
  {
    if pos == 0 || pos == |tokens| - 1 then Err(ParseError)
    else if IsIndeterminate(tokens[pos - 1]) then Ok(tokens[pos - 1].exponent)
    else if IsIndeterminate(tokens[pos + 1]) then Ok(tokens[pos + 1].exponent)
    else Err(ParseError)
  }

  /** Away from the ends, only the two neighbours of `pos` matter: the answer
      is the one for the three tokens around `pos` alone. */
  lemma GetExponentLocal(pos: nat, tokens: seq<Token>)
    requires 0 < pos && pos + 1 < |tokens|
    ensures GetExponent(pos, tokens) == GetExponent(1, tokens[pos - 1..pos + 2])
  {
  }

  // ---------------------------------------------------------------- parse

  /** The equation contains an equality sign. */
  predicate HasEqual(tokens: seq<Token>) {
    exists i :: 0 <= i < |tokens| && IsEqual(tokens[i])
  }

  /** The zero template `parse` returns: exponents 2, 1, 0, coefficients 0.0. */
  function ZeroComponents(): (c: seq<Component>)
    ensures |c| == 3
    ensures forall k :: 0 <= k < 3 ==> c[k].exponent == 2 - k && c[k].coeff == 0.0
  {
    [Component(2, 0.0), Component(1, 0.0), Component(0, 0.0)]
  }

  /** The first two pieces of `tokens.split(is_equal)`: the two `next().unwrap()`
      calls, the second of which needs an equality sign in `tokens`. The left
      side is everything before the first equality sign; the right side runs
      from there to the second equality sign or to the end; what follows a
      second equality sign is never looked at. */
  function EqualitySides(tokens: seq<Token>): (sides: (seq<Token>, seq<Token>))
    requires HasEqual(tokens)
    ensures NoMatch(sides.0, IsEqual) && NoMatch(sides.1, IsEqual)
    ensures |sides.0| < |tokens| && IsEqual(tokens[|sides.0|])
    ensures sides.0 == tokens[..|sides.0|]
    ensures |sides.0| + 1 + |sides.1| <= |tokens|
    ensures sides.1 == tokens[|sides.0| + 1..|sides.0| + 1 + |sides.1|]
    ensures |sides.0| + 1 + |sides.1| < |tokens| ==> IsEqual(tokens[|sides.0| + 1 + |sides.1|])
  {
    var pieces := Split(tokens, IsEqual);
    SplitHead(tokens, IsEqual);
    var i :| 0 <= i < |tokens| && IsEqual(tokens[i]);
    assert !NoMatch(tokens, IsEqual);
    var rest := tokens[|pieces[0]| + 1..];
    SplitHead(rest, IsEqual);
    assert pieces[1] == Split(rest, IsEqual)[0];
    (pieces[0], pieces[1])
  }

  /** `a` is the position of the first equality sign in `t` at or after
      `from`, or the end of `t` when there is none. */
  ghost predicate FirstEqualFrom(t: seq<Token>, from: nat, a: nat) {
    && from <= a <= |t|
    && (a < |t| ==> IsEqual(t[a]))
    && (forall k :: from <= k < a ==> !IsEqual(t[k]))
  }

  lemma FirstEqualUnique(t: seq<Token>, from: nat, a: nat, b: nat)
    requires FirstEqualFrom(t, from, a) && FirstEqualFrom(t, from, b)
    ensures a == b
  {
  }

  /** Both sides end at the first equality sign from where they start. */
  lemma EqualitySidesBounds(tokens: seq<Token>)
    requires HasEqual(tokens)
    ensures FirstEqualFrom(tokens, 0, |EqualitySides(tokens).0|)
    ensures FirstEqualFrom(tokens, |EqualitySides(tokens).0| + 1,
                           |EqualitySides(tokens).0| + 1 + |EqualitySides(tokens).1|)
  {
    var (l, r) := EqualitySides(tokens);
    assert forall k :: 0 <= k < |l| ==> tokens[k] == l[k];
    assert forall k :: |l| + 1 <= k < |l| + 1 + |r| ==> tokens[k] == r[k - |l| - 1];
  }

  /** A first equality sign found inside `t` is still the first after appending. */
  lemma FirstEqualFromAppend(t: seq<Token>, tail: seq<Token>, from: nat, a: nat)
    requires FirstEqualFrom(t, from, a) && a < |t|
    ensures FirstEqualFrom(t + tail, from, a)
  {
    assert forall k :: 0 <= k < |t| ==> (t + tail)[k] == t[k];
  }

  /** Tokens after a second equality sign do not change the two sides. */
  lemma EqualitySidesIgnoreTail(tokens: seq<Token>, tail: seq<Token>, i: nat, j: nat)
    requires i < j < |tokens| && IsEqual(tokens[i]) && IsEqual(tokens[j])
    ensures HasEqual(tokens + tail)
    ensures EqualitySides(tokens + tail) == EqualitySides(tokens)
  {
    var t := tokens + tail;
    assert t[i] == tokens[i];
    var (l, r) := EqualitySides(tokens);
    var (l', r') := EqualitySides(t);
    EqualitySidesBounds(tokens);
    EqualitySidesBounds(t);
    var e := |l| + 1;
    // Both equality signs lie inside `tokens`, so both boundaries do too.
    assert e + |r| < |tokens| by {
      assert |l| <= i < j;
    }
    FirstEqualFromAppend(tokens, tail, 0, |l|);
    FirstEqualUnique(t, 0, |l|, |l'|);
    FirstEqualFromAppend(tokens, tail, e, e + |r|);
    FirstEqualUnique(t, e, e + |r|, e + |r'|);
    assert t[..e + |r|] == tokens[..e + |r|];
    assert l == t[..|l|] && r == t[e..e + |r|];
  }

  /** The members the loop of `parse_sub_vector` visits: the side cut at its
      additive operators. */
  function Members(side: seq<Token>): (ms: seq<seq<Token>>)
    ensures |ms| == |Separators(side, IsSeparatorOp)| + 1
    ensures forall k :: 0 <= k < |ms| ==> NoMatch(ms[k], IsSeparatorOp)
    ensures Join(ms, Separators(side, IsSeparatorOp)) == side
  {
    SplitJoin(side, IsSeparatorOp);
    Split(side, IsSeparatorOp)
  }

  /** `parse_sub_vector`: walks the members of one side and returns `Ok(())`
      whatever the side, the sign `genCoeff` and the components; the
      components are behind a shared reference and are not written. */
  function ParseSubVector(side: seq<Token>, genCoeff: int, components: seq<Component>): (r: Result<()>)
    ensures r == Ok(())
  {
    var _ := Members(side);
    Ok(())
  }

  /** `parse`: splits the equation at its equality sign, hands the left side
      (sign 1) and the right side (sign -1) to `parse_sub_vector`, ignoring
      what it returns, and returns the untouched zero template. An equation
      without an equality sign makes the second `unwrap` panic. */
  function Parse(tokens: seq<Token>): (r: Result<seq<Component>>)
    requires HasEqual(tokens)
    ensures r.Ok? && |r.value| == 3
    ensures forall k :: 0 <= k < 3 ==> r.value[k].exponent == 2 - k && r.value[k].coeff == 0.0
  {
    var components := ZeroComponents();
    var (left, right) := EqualitySides(tokens);
    var _ := ParseSubVector(left, 1, components);
    var _ := ParseSubVector(right, -1, components);
    Ok(components)
  }
}
