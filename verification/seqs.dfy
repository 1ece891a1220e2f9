/**
 * Filtering a sequence while transforming the elements that are kept.
 * The diarization refiner, the RTTM parser and the dialog assembly are all
 * loops of this shape: walk the input in order, skip some elements, and
 * append something for the others.
 */
module Seqs {
  import opened Wrappers

  /** The elements of a sequence, as a set. */
  function Elems<T>(s: seq<T>): set<T>
  {
    set x | x in s
  }

  /** No element occurs twice. */
  predicate NoDup<T(==)>(s: seq<T>)
  {
    forall i, j :: 0 <= i < j < |s| ==> s[i] != s[j]
  }

  /** What one element contributes to a FilterMap: its image if `f` keeps it. */
  function Emit<B>(o: Option<B>): (r: seq<B>)
    ensures |r| <= 1
  {
    match o
    case Some(y) => [y]
    case None => []
  }

  /** The values `f` yields for the elements of `xs`, in order, skipping the elements it rejects. */
  function FilterMap<A, B>(xs: seq<A>, f: A -> Option<B>): (ys: seq<B>)
  {
    if xs == [] then []
    else FilterMap(xs[..|xs| - 1], f) + Emit(f(xs[|xs| - 1]))
  }

  /** One more step of a left-to-right walk over `xs`. */
  lemma FilterMapStep<A, B>(xs: seq<A>, i: nat, f: A -> Option<B>)
    requires i < |xs|
    ensures FilterMap(xs[..i + 1], f) == FilterMap(xs[..i], f) + Emit(f(xs[i]))
  {
    assert xs[..i + 1][..i] == xs[..i];
  }

  /** A walk over two elements. */
  lemma FilterMapPair<A, B>(x: A, y: A, f: A -> Option<B>)
    ensures FilterMap([x, y], f) == Emit(f(x)) + Emit(f(y))
  {
    var xs := [x, y];
    assert xs[..1] == [x] && [x][..0] == [];
    assert FilterMap([x], f) == FilterMap([], f) + Emit(f(x)) == Emit(f(x));
    assert FilterMap(xs, f) == FilterMap(xs[..1], f) + Emit(f(y));
  }

  /** An element rejected by `f` affects nothing around it: FilterMap distributes over concatenation. */
  lemma {:induction false} FilterMapAppend<A, B>(a: seq<A>, b: seq<A>, f: A -> Option<B>)
    ensures FilterMap(a + b, f) == FilterMap(a, f) + FilterMap(b, f)
    decreases |b|
  {
    if b == [] {
      assert a + b == a;
    } else {
      var b' := b[..|b| - 1];
      assert (a + b)[..|a + b| - 1] == a + b';
      FilterMapAppend(a, b', f);
    }
  }

  /** An element the function rejects contributes nothing, wherever it sits. */
  lemma FilterMapSkip<A, B>(before: seq<A>, x: A, after: seq<A>, f: A -> Option<B>)
    requires f(x) == None
    ensures FilterMap(before + [x] + after, f) == FilterMap(before, f) + FilterMap(after, f)
  {
    assert [x][..0] == [];
    assert FilterMap([x], f) == FilterMap([], f) + Emit(f(x)) == [];
    FilterMapAppend(before, [x], f);
    assert FilterMap(before + [x], f) == FilterMap(before, f);
    FilterMapAppend(before + [x], after, f);
  }

  /**
   * Every output comes from exactly one kept input, the inputs are used in
   * order, and every kept input is used: the output is the image of an
   * order-preserving selection of the input.
   */
  lemma {:induction false} FilterMapOrigins<A, B>(xs: seq<A>, f: A -> Option<B>) returns (idx: seq<nat>)
    ensures |idx| == |FilterMap(xs, f)| <= |xs|
    ensures forall k :: 0 <= k < |idx| ==> idx[k] < |xs| && f(xs[idx[k]]) == Some(FilterMap(xs, f)[k])
    ensures forall k, l :: 0 <= k < l < |idx| ==> idx[k] < idx[l]
    ensures forall i :: 0 <= i < |xs| && f(xs[i]).Some? ==> i in idx
  {
    if xs == [] {
      idx := [];
    } else {
      var n := |xs| - 1;
      var init := xs[..n];
      var prev := FilterMapOrigins(init, f);
      var out, before := FilterMap(xs, f), FilterMap(init, f);
      assert out == before + Emit(f(xs[n]));
      assert forall i :: 0 <= i < n ==> init[i] == xs[i];
      if f(xs[n]).Some? {
        idx := prev + [n];
        assert out[|before|] == f(xs[n]).value;
        forall k | 0 <= k < |idx|
          ensures idx[k] < |xs| && f(xs[idx[k]]) == Some(out[k])
        {
          if k < |prev| {
            assert out[k] == before[k];
          }
        }
      } else {
        idx := prev;
        assert out == before;
      }
    }
  }

  /** When `f` rejects every element, nothing comes out. */
  lemma {:induction false} FilterMapNone<A, B>(xs: seq<A>, f: A -> Option<B>)
    requires forall i :: 0 <= i < |xs| ==> f(xs[i]).None?
    ensures FilterMap(xs, f) == []
  {
    if xs != [] {
      var n := |xs| - 1;
      assert forall i :: 0 <= i < n ==> xs[..n][i] == xs[i];
      FilterMapNone(xs[..n], f);
    }
  }

  /** An element `f` keeps has its image in the output. */
  lemma FilterMapKept<A, B>(xs: seq<A>, i: nat, f: A -> Option<B>)
    requires i < |xs| && f(xs[i]).Some?
    ensures f(xs[i]).value in FilterMap(xs, f)
  {
    var idx := FilterMapOrigins(xs, f);
    var k :| 0 <= k < |idx| && idx[k] == i;
    assert FilterMap(xs, f)[k] == f(xs[i]).value;
  }

  /** Every output value is the image of some element `f` keeps. */
  lemma FilterMapSource<A, B>(xs: seq<A>, y: B, f: A -> Option<B>) returns (i: nat)
    requires y in FilterMap(xs, f)
    ensures i < |xs| && f(xs[i]) == Some(y)
  {
    var idx := FilterMapOrigins(xs, f);
    var k :| 0 <= k < |FilterMap(xs, f)| && FilterMap(xs, f)[k] == y;
    i := idx[k];
  }

  /** When `f` keeps every element, FilterMap is a plain map. */
  lemma {:induction false} FilterMapKeepsAll<A, B>(xs: seq<A>, f: A -> Option<B>)
    requires forall i :: 0 <= i < |xs| ==> f(xs[i]).Some?
    ensures |FilterMap(xs, f)| == |xs|
    ensures forall k :: 0 <= k < |xs| ==> f(xs[k]) == Some(FilterMap(xs, f)[k])
  {
    if xs != [] {
      var n := |xs| - 1;
      assert forall i :: 0 <= i < n ==> xs[..n][i] == xs[i];
      FilterMapKeepsAll(xs[..n], f);
    }
  }

  /** A sequence without duplicates has as many distinct elements as it is long. */
  lemma {:induction false} NoDupCard<T>(s: seq<T>)
    requires NoDup(s)
    ensures |Elems(s)| == |s|
  {
    if s != [] {
      var n := |s| - 1;
      var init := s[..n];
      assert NoDup(init);
      NoDupCard(init);
      assert Elems(s) == Elems(init) + {s[n]};
      assert s[n] !in Elems(init);
    }
  }
}
