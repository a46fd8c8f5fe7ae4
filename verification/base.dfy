/** The optional value that stands in for JavaScript's `undefined`/`null`
    fields and for DOM lookups that may find nothing. */
module Options {

  datatype Option<+T> = None | Some(value: T) {

    /** The wrapped value, or `default` when there is none (JavaScript's `x || default`
        for a field that is either absent or a non-empty value). */
    function GetOr(default: T): T {
      match this
      case Some(v) => v
      case None => default
    }
  }
}

/** Order-preserving filtering of sequences, the counterpart of `Array.prototype.filter`. */
module Seqs {

  /** The elements of `s` that satisfy `p`, in their original order. */
  function Keep<T(!new)>(s: seq<T>, p: T -> bool): (r: seq<T>)
    ensures |r| <= |s|
    ensures forall i :: 0 <= i < |r| ==> p(r[i])
  {
    if |s| == 0 then []
    else (if p(s[0]) then [s[0]] else []) + Keep(s[1..], p)
  }

  /** Filtering keeps every copy of an element that satisfies `p` and no copy of
      one that does not. */
  lemma {:induction false} KeepCounts<T(!new)>(s: seq<T>, p: T -> bool)
    ensures forall x :: multiset(Keep(s, p))[x] == if p(x) then multiset(s)[x] else 0
  {
    if |s| > 0 {
      KeepCounts(s[1..], p);
      assert s == [s[0]] + s[1..];
    }
  }

  /** One step of filtering: the head is kept exactly when it satisfies `p`. */
  lemma KeepCons<T(!new)>(a: T, s: seq<T>, p: T -> bool)
    ensures Keep([a] + s, p) == (if p(a) then [a] else []) + Keep(s, p)
  {
    assert ([a] + s)[1..] == s;
  }

  /** Filtering distributes over concatenation. */
  lemma {:induction false} KeepConcat<T(!new)>(a: seq<T>, b: seq<T>, p: T -> bool)
    ensures Keep(a + b, p) == Keep(a, p) + Keep(b, p)
  {
    if |a| == 0 {
      assert a + b == b;
    } else {
      assert (a + b)[1..] == a[1..] + b;
      KeepConcat(a[1..], b, p);
    }
  }

  /** Filtering a list extended at the end extends the filtered list by the new
      element when it passes. */
  lemma KeepSnoc<T(!new)>(s: seq<T>, x: T, p: T -> bool)
    ensures Keep(s + [x], p) == Keep(s, p) + (if p(x) then [x] else [])
  {
    KeepConcat(s, [x], p);
    assert Keep([x], p) == (if p(x) then [x] else []) + Keep([x][1..], p);
  }

  /** Filtering by a predicate every element satisfies changes nothing. */
  lemma {:induction false} KeepEverything<T(!new)>(s: seq<T>, p: T -> bool)
    requires forall i :: 0 <= i < |s| ==> p(s[i])
    ensures Keep(s, p) == s
  {
    if |s| > 0 {
      KeepEverything(s[1..], p);
    }
  }

  /** Filters by predicates that agree on every value give the same result. */
  lemma {:induction false} KeepSame<T(!new)>(s: seq<T>, p: T -> bool, q: T -> bool)
    requires forall x :: p(x) == q(x)
    ensures Keep(s, p) == Keep(s, q)
  {
    if |s| > 0 {
      KeepSame(s[1..], p, q);
    }
  }

  /** Two successive filters are one filter by the conjunction. */
  lemma {:induction false} KeepTwice<T(!new)>(s: seq<T>, p: T -> bool, q: T -> bool, both: T -> bool)
    requires forall x :: both(x) == (p(x) && q(x))
    ensures Keep(Keep(s, p), q) == Keep(s, both)
  {
    if |s| > 0 {
      var t := s[1..];
      KeepTwice(t, p, q, both);
      assert Keep(s, both) == (if both(s[0]) then [s[0]] else []) + Keep(t, both);
      if p(s[0]) {
        var kp := Keep(s, p);
        assert kp == [s[0]] + Keep(t, p);
        assert kp[1..] == Keep(t, p);
        assert Keep(kp, q) == (if q(s[0]) then [s[0]] else []) + Keep(kp[1..], q);
      } else {
        assert Keep(s, p) == Keep(t, p);
      }
    }
  }
}
