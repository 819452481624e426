/** Optional values and the order-preserving row filter that stands in for a
    pandas boolean mask. */
module Collections {

  datatype Option<+T> = None | Some(value: T)

  /** `rows[mask]`: the elements satisfying `p`, in their original order. */
  function Filter<T(!new)>(s: seq<T>, p: T -> bool): (r: seq<T>)
    ensures |r| <= |s|
    ensures forall x :: x in r <==> x in s && p(x)
    ensures forall i :: 0 <= i < |r| ==> p(r[i])
  {
    if s == [] then []
    else if p(s[0]) then [s[0]] + Filter(s[1..], p)
    else Filter(s[1..], p)
  }

  /** A mask that every row passes selects all the rows. */
  lemma {:induction false} FilterAll<T(!new)>(s: seq<T>, p: T -> bool)
    requires forall x :: x in s ==> p(x)
    ensures Filter(s, p) == s
  {
    if s != [] {
      FilterAll(s[1..], p);
    }
  }

  /** Masks that agree on every element select the same rows. */
  lemma {:induction false} FilterSame<T(!new)>(s: seq<T>, p: T -> bool, q: T -> bool)
    requires forall x :: p(x) == q(x)
    ensures Filter(s, p) == Filter(s, q)
  {
    if s != [] {
      FilterSame(s[1..], p, q);
    }
  }

  /** Narrowing twice is narrowing once by the conjunction of the masks. */
  lemma {:induction false} FilterFilter<T(!new)>(s: seq<T>, p: T -> bool, q: T -> bool, pq: T -> bool)
    requires forall x :: pq(x) == (p(x) && q(x))
    ensures Filter(Filter(s, p), q) == Filter(s, pq)
  {
    if s != [] {
      FilterFilter(s[1..], p, q, pq);
      if p(s[0]) {
        assert Filter(s, p) == [s[0]] + Filter(s[1..], p);
        assert ([s[0]] + Filter(s[1..], p))[1..] == Filter(s[1..], p);
      }
    }
  }

  /** Filtering keeps the passing elements in their original order: it
      distributes over concatenation. */
  lemma {:induction false} FilterAppend<T(!new)>(a: seq<T>, b: seq<T>, p: T -> bool)
    ensures Filter(a + b, p) == Filter(a, p) + Filter(b, p)
  {
    if a != [] {
      assert (a + b)[1..] == a[1..] + b;
      FilterAppend(a[1..], b, p);
    } else {
      assert a + b == b;
    }
  }

  /** Index `i` holds the first element of `s` that passes `p`. */
  predicate FirstPassing<T>(s: seq<T>, p: T -> bool, i: int) {
    && 0 <= i < |s| && p(s[i])
    && forall j :: 0 <= j < i ==> !p(s[j])
  }

  /** The head of a non-empty filter is the first passing element. */
  lemma {:induction false} FilterFirst<T(!new)>(s: seq<T>, p: T -> bool)
    requires Filter(s, p) != []
    ensures exists i :: FirstPassing(s, p, i) && s[i] == Filter(s, p)[0]
  {
    if p(s[0]) {
      assert FirstPassing(s, p, 0);
    } else {
      FilterFirst(s[1..], p);
      var i :| FirstPassing(s[1..], p, i) && s[1..][i] == Filter(s[1..], p)[0];
      forall j | 0 < j < i + 1
        ensures !p(s[j])
      {
        assert s[j] == s[1..][j - 1];
      }
      assert FirstPassing(s, p, i + 1);
    }
  }

  /** `head(n)`: the first `n` elements, or all of them when there are fewer. */
  function Take<T>(s: seq<T>, n: nat): (r: seq<T>)
    ensures |r| == if |s| < n then |s| else n
    ensures forall i :: 0 <= i < |r| ==> r[i] == s[i]
  {
    if |s| < n then s else s[..n]
  }

  /** Putting an element that fails `p` in front moves the first passing
      element one place on. */
  lemma FirstPassingShift<T>(s: seq<T>, p: T -> bool, i: int)
    requires s != [] && !p(s[0]) && FirstPassing(s[1..], p, i)
    ensures FirstPassing(s, p, i + 1) && s[i + 1] == s[1..][i]
  {
    forall j | 0 < j < i + 1 ensures !p(s[j]) {
      assert s[j] == s[1..][j - 1];
    }
  }

  /** Some element of `s` passes `p`. */
  predicate SomePassing<T>(s: seq<T>, p: T -> bool) {
    exists i :: 0 <= i < |s| && p(s[i])
  }

  /** A leading element that fails `p` does not change whether some element
      passes. */
  lemma SomePassingTail<T>(s: seq<T>, p: T -> bool)
    requires s != [] && !p(s[0])
    ensures SomePassing(s, p) <==> SomePassing(s[1..], p)
  {
    if SomePassing(s, p) {
      var i :| 0 <= i < |s| && p(s[i]);
      assert s[i] == s[1..][i - 1];
    }
    if SomePassing(s[1..], p) {
      var i :| 0 <= i < |s[1..]| && p(s[1..][i]);
      assert s[1..][i] == s[i + 1];
    }
  }
}
