/** Further sequence operators used by the file list: filtering twice,
    pairwise properties of a list, and `SingleOrDefault`. */
module Lookups {
  import opened Wrappers
  import opened Seqs

  /** Filtering with two predicates in turn keeps what satisfies both. */
  lemma {:induction false} FilterFilter<T>(s: seq<T>, p: T -> bool, q: T -> bool, both: T -> bool)
    requires forall x :: both(x) == (p(x) && q(x))
    ensures Filter(Filter(s, p), q) == Filter(s, both)
  {
    if |s| > 0 {
      FilterFilter(s[1..], p, q, both);
      if p(s[0]) {
        assert Filter(s, p) == [s[0]] + Filter(s[1..], p);
        FilterConcat([s[0]], Filter(s[1..], p), q);
        assert Filter([s[0]], q) == if q(s[0]) then [s[0]] else [];
      } else {
        assert Filter(s, p) == Filter(s[1..], p);
        assert Filter(s, both) == Filter(s[1..], both);
      }
    }
  }

  /** Filtering depends only on which elements the predicate accepts. */
  lemma {:induction false} FilterSame<T>(s: seq<T>, p: T -> bool, q: T -> bool)
    requires forall x :: p(x) == q(x)
    ensures Filter(s, p) == Filter(s, q)
  {
    if |s| > 0 {
      FilterSame(s[1..], p, q);
    }
  }

  /** `rel` holds of every pair of elements, taken in order. */
  predicate Pairwise<T>(s: seq<T>, rel: (T, T) -> bool) {
    forall i, j :: 0 <= i < j < |s| ==> rel(s[i], s[j])
  }

  /** Deleting elements keeps a pairwise property. */
  lemma {:induction false} FilterPairwise<T>(s: seq<T>, p: T -> bool, rel: (T, T) -> bool)
    requires Pairwise(s, rel)
    ensures Pairwise(Filter(s, p), rel)
  {
    if |s| > 0 {
      FilterPairwise(s[1..], p, rel);
      var t := Filter(s[1..], p);
      if p(s[0]) {
        forall j | 0 <= j < |t|
          ensures rel(s[0], t[j])
        {
          var k :| 0 <= k < |s[1..]| && s[1..][k] == t[j];
          assert s[k + 1] == t[j];
        }
        assert Filter(s, p) == [s[0]] + t;
      }
    }
  }

  /** `s.SingleOrDefault(p)`: the index of the only element satisfying
      `p`, none when no element does, and a failure when several do. */
  function SingleIndex<T>(s: seq<T>, p: T -> bool): (r: Result<Option<nat>>)
    ensures r.Failure? <==> exists i, j :: 0 <= i < j < |s| && p(s[i]) && p(s[j])
    ensures r == Success(None) <==> forall i :: 0 <= i < |s| ==> !p(s[i])
    ensures r.Success? && r.value.Some? ==>
              && r.value.value < |s| && p(s[r.value.value])
              && forall j :: 0 <= j < |s| && j != r.value.value ==> !p(s[j])
  {
    if |s| == 0 then Success(None)
    else
      var rest := SingleIndex(s[1..], p);
      assert forall i :: 0 < i < |s| ==> s[i] == s[1..][i - 1];
      match rest
      case Failure(e) =>
        assert exists i, j :: 0 <= i < j < |s| && p(s[i]) && p(s[j]) by {
          var i, j :| 0 <= i < j < |s[1..]| && p(s[1..][i]) && p(s[1..][j]);
          assert p(s[i + 1]) && p(s[j + 1]);
        }
        Failure(e)
      case Success(None) =>
        if p(s[0]) then Success(Some(0)) else Success(None)
      case Success(Some(k)) =>
        if p(s[0]) then
          assert p(s[k + 1]);
          Failure("Sequence contains more than one matching element")
        else
          var next: nat := k + 1;
          Success(Some(next))
  }

  /** `k` is the only position whose element satisfies `p`. */
  predicate OnlyAt<T>(s: seq<T>, p: T -> bool, k: int) {
    0 <= k < |s| && p(s[k]) && forall j :: 0 <= j < |s| && j != k ==> !p(s[j])
  }

  /** A count of one means exactly one element satisfies `p`. */
  lemma {:induction false} CountOneAt<T>(s: seq<T>, p: T -> bool)
    requires Count(s, p) == 1
    ensures exists k :: OnlyAt(s, p, k)
  {
    assert forall i :: 0 < i < |s| ==> s[i] == s[1..][i - 1];
    if p(s[0]) {
      assert Count(s[1..], p) == 0;
      assert OnlyAt(s, p, 0);
    } else {
      CountOneAt(s[1..], p);
      var k :| OnlyAt(s[1..], p, k);
      assert OnlyAt(s, p, k + 1);
    }
  }

  /** Exactly one element satisfying `p` gives a count of one. */
  lemma {:induction false} OnlyAtCount<T>(s: seq<T>, p: T -> bool, k: int)
    requires OnlyAt(s, p, k)
    ensures Count(s, p) == 1
  {
    assert forall i :: 0 < i < |s| ==> s[i] == s[1..][i - 1];
    if k == 0 {
      assert forall i :: 0 <= i < |s[1..]| ==> !p(s[1..][i]);
    } else {
      assert !p(s[0]);
      assert OnlyAt(s[1..], p, k - 1);
      OnlyAtCount(s[1..], p, k - 1);
    }
  }

  /** The removal loops of the window run from the last index down to the
      first, deleting in place; they leave the kept entries in order. */
  method RemoveBackward<T>(s: seq<T>, keep: T -> bool) returns (r: seq<T>)
    ensures r == Filter(s, keep)
  {
    r := s;
    var i := |s|;
    while i > 0
      invariant 0 <= i <= |s|
      invariant r == s[..i] + Filter(s[i..], keep)
    {
      i := i - 1;
      FilterAt(s, keep, i);
      assert s[..i + 1] == s[..i] + [s[i]];
      RemoveStep(s[..i], s[i], Filter(s[i + 1..], keep), Filter(s[i..], keep), keep(s[i]));
      if !keep(s[i]) {
        r := r[..i] + r[i + 1..];
      }
    }
  }

  /** Filtering a suffix takes its first element or not, then the rest. */
  lemma FilterAt<T>(s: seq<T>, keep: T -> bool, i: nat)
    requires i < |s|
    ensures Filter(s[i..], keep) == (if keep(s[i]) then [s[i]] else []) + Filter(s[i + 1..], keep)
  {
    assert s[i..][1..] == s[i + 1..];
  }

  /** One turn of `RemoveBackward`: with `pre`, then `x`, then the filtered
      `rest`, keeping `x` or deleting it leaves `pre` followed by the
      filtered list from `x` on. */
  lemma RemoveStep<T>(pre: seq<T>, x: T, rest: seq<T>, filtered: seq<T>, kept: bool)
    requires filtered == (if kept then [x] else []) + rest
    ensures kept ==> pre + [x] + rest == pre + filtered
    ensures !kept ==> (pre + [x] + rest)[..|pre|] + (pre + [x] + rest)[|pre| + 1..] == pre + filtered
  {
    var r := pre + [x] + rest;
    assert r[..|pre|] == pre;
    assert r[|pre| + 1..] == rest;
  }
}
