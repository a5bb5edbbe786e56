/** Rust's `slice::split(pred)`: the sub-slices of a slice separated by the
    elements that satisfy `pred`, the separators themselves left out. An empty
    slice yields one empty piece, and a separator at either end or two
    separators in a row yield empty pieces. */
module Slices {

  /** No element of `t` satisfies `p`. */
  predicate NoMatch<T>(t: seq<T>, p: T -> bool) {
    forall i :: 0 <= i < |t| ==> !p(t[i])
  }

  /** The elements of `s` that satisfy `p`, in order: the separators `Split` drops. */
  function Separators<T>(s: seq<T>, p: T -> bool): (r: seq<T>)
    ensures |r| <= |s|
    ensures forall k :: 0 <= k < |r| ==> p(r[k])
    ensures |r| == 0 <==> NoMatch(s, p)
  {
    if s == [] then []
    else if p(s[0]) then [s[0]] + Separators(s[1..], p)
    else Separators(s[1..], p)
  }

  /** The pieces that `s.split(p)` yields, in the order the iterator yields them. */
  function Split<T>(s: seq<T>, p: T -> bool): (r: seq<seq<T>>)
    ensures |r| == |Separators(s, p)| + 1
    ensures forall k :: 0 <= k < |r| ==> NoMatch(r[k], p)
    decreases |s|
  {
    if s == [] then [[]]
    else
      var rest := Split(s[1..], p);
      if p(s[0]) then [[]] + rest
      else [[s[0]] + rest[0]] + rest[1..]
  }

  /** The pieces put back together, `seps[k]` between `pieces[k]` and `pieces[k + 1]`. */
  function Join<T>(pieces: seq<seq<T>>, seps: seq<T>): (r: seq<T>)
    requires |pieces| == |seps| + 1
    decreases |seps|
  {
    if seps == [] then pieces[0]
    else pieces[0] + [seps[0]] + Join(pieces[1..], seps[1..])
  }

  /** Joining the pieces with the separators that were dropped gives the slice back. */
  lemma {:induction false} SplitJoin<T>(s: seq<T>, p: T -> bool)
    ensures Join(Split(s, p), Separators(s, p)) == s
    decreases |s|
  {
    if s != [] {
      var rest := Split(s[1..], p);
      var seps := Separators(s[1..], p);
      SplitJoin(s[1..], p);
      if !p(s[0]) {
        JoinConsFirst(s[0], rest, seps);
      }
      assert s == [s[0]] + s[1..];
    }
  }

  /** Prepending to the first piece prepends to the joined sequence. */
  lemma {:induction false} JoinConsFirst<T>(x: T, pieces: seq<seq<T>>, seps: seq<T>)
    requires |pieces| == |seps| + 1
    ensures Join([[x] + pieces[0]] + pieces[1..], seps) == [x] + Join(pieces, seps)
  {
  }

  /** Conversely, splitting separator-free pieces joined by separators gives
      back exactly those pieces and those separators: `Split` is the only way
      to cut a slice into separator-free pieces at its separators. */
  lemma {:induction false} JoinSplit<T>(pieces: seq<seq<T>>, seps: seq<T>, p: T -> bool)
    requires |pieces| == |seps| + 1
    requires forall k :: 0 <= k < |pieces| ==> NoMatch(pieces[k], p)
    requires forall k :: 0 <= k < |seps| ==> p(seps[k])
    ensures Split(Join(pieces, seps), p) == pieces
    ensures Separators(Join(pieces, seps), p) == seps
    decreases |seps|, |pieces[0]|
  {
    var j := Join(pieces, seps);
    if pieces[0] != [] {
      var x := pieces[0][0];
      var pieces' := [pieces[0][1..]] + pieces[1..];
      assert pieces[0] == [x] + pieces'[0];
      assert pieces'[1..] == pieces[1..];
      assert NoMatch(pieces'[0], p);
      JoinSplit(pieces', seps, p);
      JoinConsFirst(x, pieces', seps);
      assert j == [x] + Join(pieces', seps);
      assert j[1..] == Join(pieces', seps);
      assert !p(x);
      assert pieces == [[x] + pieces'[0]] + pieces'[1..];
    } else if seps != [] {
      JoinSplit(pieces[1..], seps[1..], p);
      assert j == [seps[0]] + Join(pieces[1..], seps[1..]);
      assert j[1..] == Join(pieces[1..], seps[1..]);
      assert pieces == [[]] + pieces[1..];
      assert seps == [seps[0]] + seps[1..];
    }
  }

  /** The first piece is the longest separator-free prefix: it is followed
      either by the end of the slice or by a separator, and the remaining
      pieces are those of what follows that separator. */
  lemma {:induction false} SplitHead<T>(s: seq<T>, p: T -> bool)
    ensures |Split(s, p)[0]| <= |s|
    ensures Split(s, p)[0] == s[..|Split(s, p)[0]|]
    ensures |Split(s, p)[0]| == |s| ==> |Split(s, p)| == 1
    ensures |Split(s, p)[0]| < |s| ==>
              p(s[|Split(s, p)[0]|]) && Split(s, p)[1..] == Split(s[|Split(s, p)[0]| + 1..], p)
    decreases |s|
  {
    if s != [] && !p(s[0]) {
      SplitHead(s[1..], p);
      var h := Split(s[1..], p)[0];
      assert Split(s, p)[0] == [s[0]] + h;
      if |h| < |s| - 1 {
        assert s[1..][|h| + 1..] == s[|h| + 2..];
      }
    }
  }
}
