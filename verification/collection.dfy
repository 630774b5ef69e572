/**
 * The list operation the view-model relies on: removal of the first element
 * equal to a given one, as an ordered collection's `Remove` does it, with an
 * independent characterisation by the index of the first occurrence.
 */
module Collection {

  /** True when no two positions of `s` hold equal elements. */
  predicate Distinct<T(==)>(s: seq<T>)
  {
    forall i, j :: 0 <= i < j < |s| ==> s[i] != s[j]
  }

  /** Position of the first element of `s` equal to `x`. */
  function FirstIndex<T(==)>(s: seq<T>, x: T): (i: nat)
    requires x in s
    ensures i < |s| && s[i] == x
    ensures forall j :: 0 <= j < i ==> s[j] != x
  {
    if s[0] == x then 0
    else
      assert x in s[1..] by { assert s == [s[0]] + s[1..]; }
      1 + FirstIndex(s[1..], x)
  }

  /**
   * Deletes the first element equal to `x`; a sequence without `x` is
   * returned unchanged (removal of an absent element is not an error).
   */
  function RemoveFirst<T(==)>(s: seq<T>, x: T): (r: seq<T>)
    ensures x !in s ==> r == s
    ensures x in s ==> |r| == |s| - 1
    ensures multiset(r) == multiset(s) - multiset{x}
  {
    if s == [] then []
    else
      assert s == [s[0]] + s[1..];
      if s[0] == x then s[1..]
      else [s[0]] + RemoveFirst(s[1..], x)
  }

  /**
   * What is removed is exactly the first occurrence: every other element
   * stays, in its original relative order.
   */
  lemma {:induction false} RemoveFirstAt<T>(s: seq<T>, x: T)
    requires x in s
    ensures RemoveFirst(s, x) == s[..FirstIndex(s, x)] + s[FirstIndex(s, x) + 1..]
  {
    if s[0] != x {
      var t := s[1..];
      assert s == [s[0]] + t;
      assert x in t;
      RemoveFirstAt(t, x);
      var i := FirstIndex(t, x);
      assert FirstIndex(s, x) == i + 1;
      SpliceCons(s[0], t, i);
    }
  }

  /**
   * Cutting position `i` out of `t` and then prefixing `a` is cutting
   * position `i + 1` out of `[a] + t`. Kept apart from `RemoveFirstAt` so
   * that this sequence fact is proved without that lemma's context.
   */
  lemma SpliceCons<T>(a: T, t: seq<T>, i: nat)
    requires i < |t|
    ensures [a] + (t[..i] + t[i + 1..]) == ([a] + t)[..i + 1] + ([a] + t)[i + 2..]
  {
  }

  /**
   * On a list without duplicates, removal deletes every copy of `x` and
   * keeps the list duplicate-free.
   */
  lemma {:induction false} RemoveFirstDistinct<T>(s: seq<T>, x: T)
    requires Distinct(s)
    ensures Distinct(RemoveFirst(s, x))
    ensures x !in RemoveFirst(s, x)
  {
    if s != [] {
      var tail := s[1..];
      assert Distinct(tail) by {
        forall i, j | 0 <= i < j < |tail| ensures tail[i] != tail[j] {
          assert tail[i] == s[i + 1] && tail[j] == s[j + 1];
        }
      }
      assert s[0] !in tail by {
        forall k | 0 <= k < |tail| ensures tail[k] != s[0] {
          assert tail[k] == s[k + 1];
        }
      }
      if s[0] != x {
        RemoveFirstDistinct(tail, x);
        var r := RemoveFirst(tail, x);
        assert s[0] !in r by {
          assert multiset(r)[s[0]] <= multiset(tail)[s[0]] == 0;
        }
        assert RemoveFirst(s, x) == [s[0]] + r;
      }
    }
  }

  /**
   * Appending `m` to a duplicate-free list keeps it duplicate-free exactly
   * when `m` is not already in it.
   */
  lemma AppendDistinct<T>(s: seq<T>, m: T)
    requires Distinct(s)
    ensures Distinct(s + [m]) <==> m !in s
  {
    var t := s + [m];
    if m in s {
      var k :| 0 <= k < |s| && s[k] == m;
      assert t[k] == t[|s|];
    } else {
      forall i, j | 0 <= i < j < |t| ensures t[i] != t[j] {
        if j < |s| {
          assert t[i] == s[i] && t[j] == s[j];
        } else {
          assert t[i] == s[i];
        }
      }
    }
  }
}
