/** Inclusive codepoint ranges: membership, iteration and the Japanese
    replacement filter (ranges.py, and the copies at the top of build.py). */
module Ranges {

  /** An inclusive (start, end) pair. */
  type Range = (int, int)

  /** True when `u` lies inside some pair of `rs`; a linear scan that stops
      at the first pair containing `u`. */
  function InAny(u: int, rs: seq<Range>): bool
  {
    if rs == [] then false
    else if rs[0].0 <= u <= rs[0].1 then true
    else InAny(u, rs[1..])
  }

  /** The scan agrees with the declarative reading of a range list. */
  lemma {:induction false} InAnyIff(u: int, rs: seq<Range>)
    ensures InAny(u, rs) <==> exists k :: 0 <= k < |rs| && rs[k].0 <= u <= rs[k].1
  {
    if rs != [] {
      InAnyIff(u, rs[1..]);
      if !(rs[0].0 <= u <= rs[0].1) {
        forall k | 0 < k < |rs| ensures rs[k] == rs[1..][k - 1] { }
      }
    }
  }

  lemma InAnyEmpty(u: int)
    ensures !InAny(u, [])
  {
  }

  /** Membership in a concatenation is membership in one of the parts. */
  lemma {:induction false} InAnyConcat(u: int, xs: seq<Range>, ys: seq<Range>)
    ensures InAny(u, xs + ys) <==> InAny(u, xs) || InAny(u, ys)
  {
    if xs != [] {
      assert (xs + ys)[1..] == xs[1..] + ys;
      InAnyConcat(u, xs[1..], ys);
    } else {
      assert xs + ys == ys;
    }
  }

  /** The ascending run a, a+1, ..., b; empty when b < a. */
  function Span(a: int, b: int): seq<int>
    decreases b - a
  {
    if b < a then [] else [a] + Span(a + 1, b)
  }

  /** Every codepoint of every pair, pair by pair in list order. */
  function IterRanges(rs: seq<Range>): seq<int>
  {
    if rs == [] then [] else Span(rs[0].0, rs[0].1) + IterRanges(rs[1..])
  }

  /** The number of codepoints a pair contributes: max(0, b - a + 1). */
  function Width(r: Range): nat
  {
    if r.1 < r.0 then 0 else r.1 - r.0 + 1
  }

  function TotalWidth(rs: seq<Range>): nat
  {
    if rs == [] then 0 else Width(rs[0]) + TotalWidth(rs[1..])
  }

  lemma {:induction false} SpanShape(a: int, b: int)
    ensures |Span(a, b)| == Width((a, b))
    ensures forall k :: 0 <= k < |Span(a, b)| ==> Span(a, b)[k] == a + k
    decreases b - a
  {
    if a <= b {
      SpanShape(a + 1, b);
      forall k | 0 < k < |Span(a, b)| ensures Span(a, b)[k] == a + k {
        assert Span(a, b)[k] == Span(a + 1, b)[k - 1];
      }
    }
  }

  lemma SpanMembers(a: int, b: int)
    ensures forall u :: u in Span(a, b) <==> a <= u <= b
  {
    SpanShape(a, b);
    forall u | a <= u <= b ensures u in Span(a, b) {
      assert Span(a, b)[u - a] == u;
    }
  }

  /** The total length of the iteration is the sum of max(0, b - a + 1). */
  lemma {:induction false} IterRangesLength(rs: seq<Range>)
    ensures |IterRanges(rs)| == TotalWidth(rs)
  {
    if rs != [] {
      SpanShape(rs[0].0, rs[0].1);
      IterRangesLength(rs[1..]);
    }
  }

  /** Iteration yields exactly the members of the range list. */
  lemma {:induction false} IterRangesMembers(rs: seq<Range>)
    ensures forall u :: u in IterRanges(rs) <==> InAny(u, rs)
  {
    if rs != [] {
      IterRangesMembers(rs[1..]);
      SpanMembers(rs[0].0, rs[0].1);
    }
  }

  /** Iterating a concatenation iterates the first list, then the second. */
  lemma {:induction false} IterRangesConcat(xs: seq<Range>, ys: seq<Range>)
    ensures IterRanges(xs + ys) == IterRanges(xs) + IterRanges(ys)
  {
    if xs == [] {
      assert xs + ys == ys;
    } else {
      assert (xs + ys)[1..] == xs[1..] + ys;
      IterRangesConcat(xs[1..], ys);
    }
  }

  /** There is no de-duplication: overlapping pairs yield a codepoint twice. */
  lemma OverlapYieldsDuplicates()
    ensures IterRanges([(1, 2), (2, 3)]) == [1, 2, 2, 3]
  {
    assert Span(3, 2) == [];
    assert Span(4, 3) == [];
    assert Span(2, 3) == [2, 3];
    assert Span(1, 2) == [1, 2];
  }

  /** jp_allowed over a given pair of tables: a codepoint is refused only when
      it is excluded punctuation and not a digit. */
  function JpAllowedIn(u: int, exclude: seq<Range>, digits: seq<Range>): bool
  {
    !(InAny(u, exclude) && !InAny(u, digits))
  }

  lemma JpRefusedIff(u: int, exclude: seq<Range>, digits: seq<Range>)
    ensures !JpAllowedIn(u, exclude, digits) <==>
            (exists k :: 0 <= k < |exclude| && exclude[k].0 <= u <= exclude[k].1) &&
            !(exists k :: 0 <= k < |digits| && digits[k].0 <= u <= digits[k].1)
  {
    InAnyIff(u, exclude);
    InAnyIff(u, digits);
  }

  /** A digit is always allowed, whatever the exclusion table holds. */
  lemma DigitsAlwaysAllowed(u: int, exclude: seq<Range>, digits: seq<Range>)
    requires exists k :: 0 <= k < |digits| && digits[k].0 <= u <= digits[k].1
    ensures JpAllowedIn(u, exclude, digits)
  {
    InAnyIff(u, digits);
  }
}
