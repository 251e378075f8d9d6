/**
 * Order-preserving sequence operations shared by the whole model: the row
 * masks of pandas (`df[mask]`), JavaScript's `filter`, `map` and `findIndex`.
 */
module Seqs {
  import opened Wrappers

  /** The elements of `s` that satisfy `p`, in their original order. */
  function Filter<T>(s: seq<T>, p: T -> bool): (r: seq<T>)
    ensures |r| <= |s|
    ensures forall x :: x in r ==> x in s && p(x)
    ensures forall x :: x in s && p(x) ==> x in r
  {
    if s == [] then []
    else
      var init := Filter(s[..|s| - 1], p);
      assert forall x :: x in s ==> x in s[..|s| - 1] || x == s[|s| - 1];
      if p(s[|s| - 1]) then init + [s[|s| - 1]] else init
  }

  /** The positions of the elements of `s` that satisfy `p`, in increasing order. */
  function KeptIndices<T>(s: seq<T>, p: T -> bool): (r: seq<nat>)
    ensures |r| <= |s|
    ensures forall k :: 0 <= k < |r| ==> r[k] < |s| && p(s[r[k]])
  {
    if s == [] then []
    else
      var init := KeptIndices(s[..|s| - 1], p);
      if p(s[|s| - 1]) then init + [|s| - 1] else init
  }

  predicate StrictlyIncreasing(r: seq<nat>) {
    forall a, b :: 0 <= a < b < |r| ==> r[a] < r[b]
  }

  /** The positions `KeptIndices` lists are increasing. */
  lemma {:induction false} KeptIndicesIncreasing<T>(s: seq<T>, p: T -> bool)
    ensures StrictlyIncreasing(KeptIndices(s, p))
  {
    if s != [] {
      KeptIndicesIncreasing(s[..|s| - 1], p);
    }
  }

  /** A position is listed exactly when its element satisfies `p`. */
  lemma {:induction false} KeptIndicesExact<T>(s: seq<T>, p: T -> bool)
    ensures forall i :: 0 <= i < |s| ==> (p(s[i]) <==> i in KeptIndices(s, p))
  {
    if s != [] {
      var init := s[..|s| - 1];
      KeptIndicesExact(init, p);
      assert forall i :: 0 <= i < |init| ==> s[i] == init[i];
    }
  }

  /** Two lists whose elements pass their tests at the same positions keep the same positions. */
  lemma {:induction false} KeptIndicesCongruent<T, U>(s: seq<T>, p: T -> bool, s': seq<U>, p': U -> bool)
    requires |s| == |s'| && forall i :: 0 <= i < |s| ==> p(s[i]) == p'(s'[i])
    ensures KeptIndices(s, p) == KeptIndices(s', p')
  {
    if s != [] {
      var init, init' := s[..|s| - 1], s'[..|s'| - 1];
      assert forall i :: 0 <= i < |init| ==> init[i] == s[i] && init'[i] == s'[i];
      KeptIndicesCongruent(init, p, init', p');
    }
  }

  /** `Filter` keeps exactly the elements at the positions `KeptIndices` lists. */
  lemma {:induction false} FilterAtIndices<T>(s: seq<T>, p: T -> bool)
    ensures |Filter(s, p)| == |KeptIndices(s, p)|
    ensures forall m :: 0 <= m < |KeptIndices(s, p)| ==> Filter(s, p)[m] == s[KeptIndices(s, p)[m]]
  {
    if s != [] {
      var init := s[..|s| - 1];
      FilterAtIndices(init, p);
      var f, ks := Filter(init, p), KeptIndices(init, p);
      if p(s[|s| - 1]) {
        ExtendAtIndices(s, init, f + [s[|s| - 1]], ks + [|s| - 1], f, ks);
      } else {
        ExtendAtIndices(s, init, f, ks, f, ks);
      }
    }
  }

  /** The step of `FilterAtIndices`: what holds of the prefix holds of its extension. */
  lemma ExtendAtIndices<T>(s: seq<T>, init: seq<T>, f': seq<T>, ks': seq<nat>, f: seq<T>, ks: seq<nat>)
    requires s != [] && init == s[..|s| - 1]
    requires |f| == |ks| && forall m :: 0 <= m < |ks| ==> ks[m] < |init| && f[m] == init[ks[m]]
    requires (f' == f + [s[|s| - 1]] && ks' == ks + [|s| - 1]) || (f' == f && ks' == ks)
    ensures |f'| == |ks'| && forall m :: 0 <= m < |ks'| ==> ks'[m] < |s| && f'[m] == s[ks'[m]]
  {
  }

  /**
   * Together: the survivors of `Filter` keep their relative order, none is
   * duplicated, and every element satisfying `p` survives.
   */
  lemma FilterByIndices<T>(s: seq<T>, p: T -> bool)
    ensures StrictlyIncreasing(KeptIndices(s, p))
    ensures forall i :: 0 <= i < |s| ==> (p(s[i]) <==> i in KeptIndices(s, p))
    ensures |Filter(s, p)| == |KeptIndices(s, p)|
    ensures forall m :: 0 <= m < |KeptIndices(s, p)| ==> Filter(s, p)[m] == s[KeptIndices(s, p)[m]]
  {
    KeptIndicesIncreasing(s, p);
    KeptIndicesExact(s, p);
    FilterAtIndices(s, p);
  }

  /** Elements of `s` mapped through `f`, position by position. */
  function MapSeq<T, U>(s: seq<T>, f: T --> U): (r: seq<U>)
    requires forall i :: 0 <= i < |s| ==> f.requires(s[i])
    ensures |r| == |s|
    ensures forall i :: 0 <= i < |s| ==> r[i] == f(s[i])
  {
    if s == [] then [] else MapSeq(s[..|s| - 1], f) + [f(s[|s| - 1])]
  }

  /** Nothing survives a test that no element passes. */
  lemma {:induction false} FilterNone<T>(s: seq<T>, p: T -> bool)
    requires forall i :: 0 <= i < |s| ==> !p(s[i])
    ensures Filter(s, p) == []
  {
    if s != [] {
      FilterNone(s[..|s| - 1], p);
    }
  }

  /** Exactly one element survives a test that exactly one element passes. */
  lemma {:induction false} FilterSingle<T>(s: seq<T>, p: T -> bool, j: nat)
    requires j < |s| && p(s[j])
    requires forall i :: 0 <= i < |s| && i != j ==> !p(s[i])
    ensures Filter(s, p) == [s[j]]
  {
    var init := s[..|s| - 1];
    if j == |s| - 1 {
      FilterNone(init, p);
    } else {
      FilterSingle(init, p, j);
    }
  }

  /** Everything survives a test that every element passes. */
  lemma {:induction false} FilterAll<T>(s: seq<T>, p: T -> bool)
    requires forall i :: 0 <= i < |s| ==> p(s[i])
    ensures Filter(s, p) == s
  {
    if s != [] {
      FilterAll(s[..|s| - 1], p);
      assert s == s[..|s| - 1] + [s[|s| - 1]];
    }
  }

  /** Filtering a concatenation filters each part. */
  lemma {:induction false} FilterAppend<T>(s: seq<T>, t: seq<T>, p: T -> bool)
    ensures Filter(s + t, p) == Filter(s, p) + Filter(t, p)
  {
    if t != [] {
      var init := t[..|t| - 1];
      FilterAppend(s, init, p);
      assert (s + t)[..|s + t| - 1] == s + init;
    } else {
      assert s + t == s;
    }
  }

  /** Two filters in a row keep what the conjunction keeps. */
  lemma {:induction false} FilterFilter<T>(s: seq<T>, p: T -> bool, q: T -> bool)
    ensures Filter(Filter(s, p), q) == Filter(s, x => p(x) && q(x))
  {
    if s != [] {
      var init := s[..|s| - 1];
      FilterFilter(init, p, q);
      var fp := Filter(s, p);
      if p(s[|s| - 1]) {
        assert fp[..|fp| - 1] == Filter(init, p);
      }
    }
  }

  /** Filtering after a map is mapping after filtering with the composed test. */
  lemma {:induction false} FilterMap<T, U>(s: seq<T>, f: T -> U, p: U -> bool)
    ensures Filter(MapSeq(s, f), p) == MapSeq(Filter(s, x => p(f(x))), f)
  {
    if s != [] {
      var init := s[..|s| - 1];
      FilterMap(init, f, p);
      var ms := MapSeq(s, f);
      assert ms[..|ms| - 1] == MapSeq(init, f);
      var fs := Filter(s, x => p(f(x)));
      if p(f(s[|s| - 1])) {
        assert fs[..|fs| - 1] == Filter(init, x => p(f(x)));
      }
    }
  }

  /** Tests that agree on every element of `s` filter `s` alike. */
  lemma {:induction false} FilterCongruent<T>(s: seq<T>, p: T -> bool, q: T -> bool)
    requires forall i :: 0 <= i < |s| ==> p(s[i]) == q(s[i])
    ensures Filter(s, p) == Filter(s, q)
  {
    if s != [] {
      FilterCongruent(s[..|s| - 1], p, q);
    }
  }

  /** Every element is kept either by `p` or by its negation `q`. */
  lemma {:induction false} FilterPartition<T>(s: seq<T>, p: T -> bool, q: T -> bool)
    requires forall i :: 0 <= i < |s| ==> q(s[i]) == !p(s[i])
    ensures |Filter(s, p)| + |Filter(s, q)| == |s|
  {
    if s != [] {
      FilterPartition(s[..|s| - 1], p, q);
    }
  }

  /** JavaScript's `findIndex`: the first position whose element satisfies `p`. */
  function FirstWhere<T>(s: seq<T>, p: T -> bool): (r: Option<nat>)
    ensures r.Some? ==> r.value < |s| && p(s[r.value]) && forall j :: 0 <= j < r.value ==> !p(s[j])
    ensures r.None? ==> forall j :: 0 <= j < |s| ==> !p(s[j])
  {
    if s == [] then None
    else if p(s[0]) then Some(0)
    else match FirstWhere(s[1..], p)
      case None => None
      case Some(k) => Some(k + 1)
  }

  /** `s` without the element at position `k` (JavaScript's `filter((_, j) => j !== k)`). */
  function RemoveAt<T>(s: seq<T>, k: nat): (r: seq<T>)
    requires k < |s|
    ensures |r| == |s| - 1
    ensures forall j :: 0 <= j < k ==> r[j] == s[j]
    ensures forall j :: k <= j < |r| ==> r[j] == s[j + 1]
  {
    s[..k] + s[k + 1..]
  }

  /** The present results of `f` over `s`, in order: a map that drops the elements without one. */
  function Collect<T, U>(s: seq<T>, f: T -> Option<U>): (r: seq<U>)
    ensures |r| <= |s|
  {
    if s == [] then []
    else
      var init := Collect(s[..|s| - 1], f);
      var last := s[|s| - 1];
      if f(last).Some? then init + [f(last).value] else init
  }

  /** Every collected value comes from an element, and every element with a result contributes it. */
  lemma {:induction false} CollectMembers<T, U>(s: seq<T>, f: T -> Option<U>)
    ensures forall y :: y in Collect(s, f) ==> exists x :: x in s && f(x) == Some(y)
    ensures forall x :: x in s && f(x).Some? ==> f(x).value in Collect(s, f)
  {
    if s != [] {
      var init := s[..|s| - 1];
      CollectMembers(init, f);
      assert forall x :: x in init ==> x in s;
      assert forall x :: x in s ==> x in init || x == s[|s| - 1];
    }
  }

  /** Dropping elements that have no result changes nothing that is collected. */
  lemma {:induction false} CollectFilter<T, U>(s: seq<T>, p: T -> bool, f: T -> Option<U>)
    requires forall i :: 0 <= i < |s| && !p(s[i]) ==> f(s[i]).None?
    ensures Collect(Filter(s, p), f) == Collect(s, f)
  {
    if s != [] {
      var init, last := s[..|s| - 1], s[|s| - 1];
      CollectFilter(init, p, f);
      if p(last) {
        assert Filter(s, p) == Filter(init, p) + [last];
        assert (Filter(init, p) + [last])[..|Filter(init, p) + [last]| - 1] == Filter(init, p);
      }
    }
  }

  /** Two sequences with the same results position by position collect the same. */
  lemma {:induction false} CollectPointwise<T, V, U>(s: seq<T>, t: seq<V>, f: T -> Option<U>, g: V -> Option<U>)
    requires |s| == |t|
    requires forall i :: 0 <= i < |s| ==> f(s[i]) == g(t[i])
    ensures Collect(s, f) == Collect(t, g)
  {
    if s != [] {
      CollectPointwise(s[..|s| - 1], t[..|t| - 1], f, g);
    }
  }

  /** A collect whose results are exactly `g` on the elements passing `p` is a filter followed by a map. */
  lemma {:induction false} CollectAsMap<T, U>(s: seq<T>, p: T -> bool, f: T -> Option<U>, g: T -> U)
    requires forall i :: 0 <= i < |s| ==> f(s[i]) == if p(s[i]) then Some(g(s[i])) else None
    ensures Collect(s, f) == MapSeq(Filter(s, p), g)
  {
    if s != [] {
      var init, last := s[..|s| - 1], s[|s| - 1];
      CollectAsMap(init, p, f, g);
      if p(last) {
        var kept := Filter(init, p) + [last];
        assert Filter(s, p) == kept;
        assert kept[..|kept| - 1] == Filter(init, p);
      }
    }
  }

  /** One more element collected: its result, if any, is appended. */
  lemma CollectStep<T, U>(s: seq<T>, f: T -> Option<U>, k: nat)
    requires k < |s|
    ensures Collect(s[..k + 1], f) == Collect(s[..k], f) + (if f(s[k]).Some? then [f(s[k]).value] else [])
  {
    assert s[..k + 1][..k] == s[..k];
  }

  /** An element of a concatenation comes from its first or its second part. */
  lemma ConcatAt<T>(a: seq<T>, b: seq<T>, i: nat)
    requires i < |a| + |b|
    ensures (a + b)[i] == if i < |a| then a[i] else b[i - |a|]
  {
  }
}
