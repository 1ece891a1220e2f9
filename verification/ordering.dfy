/**
 * Python's ordering of strings (lexicographic by code point, a proper prefix
 * first) and `sorted(...)` applied to a set of strings, which is how the
 * transcript's participant list is produced.
 */
module Ordering {
  import opened Seqs

  /** `a < b` on Python strings. */
  predicate Below(a: string, b: string)
  {
    if a == [] then b != []
    else if b == [] then false
    else if a[0] == b[0] then Below(a[1..], b[1..])
    else a[0] < b[0]
  }

  lemma {:induction false} BelowIrreflexive(a: string)
    ensures !Below(a, a)
  {
    if a != [] {
      BelowIrreflexive(a[1..]);
    }
  }

  lemma {:induction false} BelowTransitive(a: string, b: string, c: string)
    requires Below(a, b) && Below(b, c)
    ensures Below(a, c)
  {
    if a != [] && b != [] && c != [] && a[0] == b[0] == c[0] {
      BelowTransitive(a[1..], b[1..], c[1..]);
    }
  }

  /** Any two different strings are ordered one way or the other. */
  lemma {:induction false} BelowTotal(a: string, b: string)
    requires a != b
    ensures Below(a, b) || Below(b, a)
  {
    if a != [] && b != [] && a[0] == b[0] {
      assert a == [a[0]] + a[1..] && b == [b[0]] + b[1..];
      BelowTotal(a[1..], b[1..]);
    }
  }

  /** A common prefix does not change the order. */
  lemma {:induction false} BelowCommonPrefix(p: string, a: string, b: string)
    requires Below(a, b)
    ensures Below(p + a, p + b)
  {
    if p == [] {
      assert p + a == a && p + b == b;
    } else {
      BelowCommonPrefix(p[1..], a, b);
      assert (p + a)[0] == (p + b)[0] == p[0];
      assert (p + a)[1..] == p[1..] + a;
      assert (p + b)[1..] == p[1..] + b;
    }
  }

  /** Strictly increasing, hence also free of duplicates. */
  predicate StrictlySorted(s: seq<string>)
  {
    forall i, j :: 0 <= i < j < |s| ==> Below(s[i], s[j])
  }

  /** `x` put in its place in a strictly sorted list, unless it is already there. */
  function Insert(s: seq<string>, x: string): (r: seq<string>)
    requires StrictlySorted(s)
    ensures StrictlySorted(r)
    ensures Elems(r) == Elems(s) + {x}
  {
    if s == [] then [x]
    else if x == s[0] then s
    else if Below(x, s[0]) then
      forall j | 0 < j < |s| ensures Below(x, s[j]) {
        BelowTransitive(x, s[0], s[j]);
      }
      [x] + s
    else
      BelowTotal(x, s[0]);
      var tail := Insert(s[1..], x);
      assert Elems(s) == {s[0]} + Elems(s[1..]);
      forall k | 0 <= k < |tail| ensures Below(s[0], tail[k]) {
        assert tail[k] in Elems(s[1..]) + {x};
        if tail[k] != x {
          var m :| 0 <= m < |s| - 1 && s[1..][m] == tail[k];
          assert s[m + 1] == tail[k];
        }
      }
      var r := [s[0]] + tail;
      assert Elems(r) == {s[0]} + Elems(tail);
      r
  }

  /**
   * Python's `sorted(speakers)` for a set of strings: the elements of the set
   * in increasing order, each once.
   */
  method SortedList(speakers: set<string>) returns (r: seq<string>)
    ensures StrictlySorted(r)
    ensures Elems(r) == speakers
  {
    r := [];
    var rest := speakers;
    while rest != {}
      invariant StrictlySorted(r)
      invariant Elems(r) + rest == speakers
      decreases rest
    {
      var x :| x in rest;
      r := Insert(r, x);
      rest := rest - {x};
    }
  }

  lemma ElemsEmpty(s: seq<string>)
    ensures s == [] <==> Elems(s) == {}
  {
    if s != [] {
      assert s[0] in Elems(s);
    }
  }

  /** The head of a strictly sorted list is not repeated in its tail. */
  lemma TailElems(s: seq<string>)
    requires StrictlySorted(s) && s != []
    ensures Elems(s[1..]) == Elems(s) - {s[0]}
  {
    BelowIrreflexive(s[0]);
    assert s == [s[0]] + s[1..];
    assert Elems(s) == {s[0]} + Elems(s[1..]);
    assert s[0] !in Elems(s[1..]);
  }

  /** A strictly sorted list is determined by its elements: `sorted` has only one possible answer. */
  lemma {:induction false} SortedUnique(a: seq<string>, b: seq<string>)
    requires StrictlySorted(a) && StrictlySorted(b)
    requires Elems(a) == Elems(b)
    ensures a == b
    decreases |a|
  {
    ElemsEmpty(a);
    ElemsEmpty(b);
    if a != [] {
      assert a[0] in Elems(b) && b[0] in Elems(a);
      var i :| 0 <= i < |a| && a[i] == b[0];
      var j :| 0 <= j < |b| && b[j] == a[0];
      if i != 0 && j != 0 {
        BelowTransitive(a[0], b[0], a[0]);
        BelowIrreflexive(a[0]);
        assert false;
      }
      assert a[0] == b[0];
      TailElems(a);
      TailElems(b);
      SortedUnique(a[1..], b[1..]);
      assert a == [a[0]] + a[1..] && b == [b[0]] + b[1..];
    }
  }
}
