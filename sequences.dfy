/** Small facts about sequences used by the table model. */
module Seqs {

  /** No element occurs twice (a pandas Index without repeated labels). */
  predicate Distinct<T(==)>(s: seq<T>) {
    forall i, j :: 0 <= i < j < |s| ==> s[i] != s[j]
  }

  /** The position of the first occurrence of `x` (`list.index`, `Index.get_loc` on a unique index). */
  function IndexOf<T(==)>(s: seq<T>, x: T): (i: nat)
    requires x in s
    ensures i < |s| && s[i] == x && x !in s[..i]
  {
    if s[0] == x then 0 else 1 + IndexOf(s[1..], x)
  }

  /** Without its head, a sequence without repetitions has none either, and lacks the head. */
  lemma DistinctTail<T>(s: seq<T>)
    requires Distinct(s) && s != []
    ensures Distinct(s[1..]) && s[0] !in s[1..]
  {
    assert forall k :: 0 <= k < |s| - 1 ==> s[1..][k] == s[k + 1];
  }

  /** Past the head, the first index is one more than the first index in the tail. */
  lemma IndexOfPastHead<T>(s: seq<T>, x: T)
    requires x in s && x != s[0]
    ensures x in s[1..] && IndexOf(s, x) == 1 + IndexOf(s[1..], x)
  {
  }

  /** In a sequence without repetitions, the element at `k` is found at `k`. */
  lemma {:induction false} IndexOfDistinct<T>(s: seq<T>, k: nat)
    requires Distinct(s) && k < |s|
    ensures IndexOf(s, s[k]) == k
  {
    var i := IndexOf(s, s[k]);
    // s[k] is not among the first i elements, so i <= k; and s[i] == s[k] forces i == k
    assert forall j :: 0 <= j < i ==> s[..i][j] == s[j];
    assert s[i] == s[k];
  }

  /** The lists one after another (`list(itertools.chain(*xss))`). */
  function Flatten<T>(xss: seq<seq<T>>): seq<T> {
    if xss == [] then [] else Flatten(xss[..|xss| - 1]) + xss[|xss| - 1]
  }

  /** The total length of the lists. */
  function TotalLength<T>(xss: seq<seq<T>>): nat {
    if xss == [] then 0 else TotalLength(xss[..|xss| - 1]) + |xss[|xss| - 1]|
  }

  /** Where list `i` starts inside `Flatten(xss)`. */
  function Offset<T>(xss: seq<seq<T>>, i: nat): nat
    requires i <= |xss|
  {
    TotalLength(xss[..i])
  }

  lemma {:induction false} FlattenLength<T>(xss: seq<seq<T>>)
    ensures |Flatten(xss)| == TotalLength(xss)
  {
    if xss != [] {
      FlattenLength(xss[..|xss| - 1]);
    }
  }

  /** Flattening distributes over concatenation of the outer list. */
  lemma {:induction false} FlattenAppend<T>(xss: seq<seq<T>>, yss: seq<seq<T>>)
    ensures Flatten(xss + yss) == Flatten(xss) + Flatten(yss)
  {
    if yss == [] {
      assert xss + yss == xss;
    } else {
      var last := |yss| - 1;
      assert (xss + yss)[..|xss + yss| - 1] == xss + yss[..last];
      FlattenAppend(xss, yss[..last]);
    }
  }

  /** Element `j` of list `i` sits at `Offset(xss, i) + j` of the flattened list. */
  lemma {:induction false} FlattenAt<T>(xss: seq<seq<T>>, i: nat, j: nat)
    requires i < |xss| && j < |xss[i]|
    ensures Offset(xss, i) + j < |Flatten(xss)|
    ensures Flatten(xss)[Offset(xss, i) + j] == xss[i][j]
  {
    var last := |xss| - 1;
    var init := xss[..last];
    FlattenLength(init);
    FlattenLength(xss);
    if i == last {
      assert init == xss[..i];
    } else {
      assert init[..i] == xss[..i];
      assert init[i] == xss[i];
      FlattenAt(init, i, j);
    }
  }

  /** An element of the flattened list is an element of one of the lists, and conversely. */
  lemma {:induction false} FlattenMembers<T>(xss: seq<seq<T>>, x: T)
    ensures x in Flatten(xss) <==> exists i :: 0 <= i < |xss| && x in xss[i]
  {
    if xss != [] {
      var last := |xss| - 1;
      var init := xss[..last];
      FlattenMembers(init, x);
      assert forall i :: 0 <= i < last ==> init[i] == xss[i];
      if x in Flatten(xss) && x !in xss[last] {
        var i :| 0 <= i < last && x in init[i];
        assert x in xss[i];
      }
      if exists i :: 0 <= i < |xss| && x in xss[i] {
        var i :| 0 <= i < |xss| && x in xss[i];
        if i < last {
          assert x in init[i];
        }
      }
    }
  }
}
