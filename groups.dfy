/**
  Group labels: the list of distinct groups in first-occurrence order
  (`unique_groups` in `split` and `cv_split`) and the relabelling of
  arbitrary labels to consecutive integers (`_prepare_data`).
 */
module Groups {
  import opened NumpyOps

  /** The position of the first occurrence of `x` in `g`. */
  function FirstIndex<K(==)>(g: seq<K>, x: K): (i: nat)
    requires x in g
    ensures i < |g| && g[i] == x && x !in g[..i]
  {
    if g[0] == x then 0
    else
      var j := FirstIndex(g[1..], x);
      assert g[..1 + j] == [g[0]] + g[1..][..j];
      1 + j
  }

  /** A position that holds the first occurrence of its label is that label's `FirstIndex`. */
  lemma FirstIndexAt<K>(g: seq<K>, j: nat)
    requires j < |g| && g[j] !in g[..j]
    ensures FirstIndex(g, g[j]) == j
  {
    var i := FirstIndex(g, g[j]);
    assert forall k :: 0 <= k < j ==> g[..j][k] == g[k];
    assert forall k :: 0 <= k < i ==> g[..i][k] == g[k];
  }

  /** For each position, whether it holds the first occurrence of its label. */
  function FirstOccurrenceMask<K(==)>(g: seq<K>): (m: seq<bool>)
    ensures |m| == |g|
    ensures forall i :: 0 <= i < |g| ==> (m[i] <==> g[i] !in g[..i])
  {
    seq(|g|, i requires 0 <= i < |g| => g[i] !in g[..i])
  }

  /**
    `sorted(np.unique(g, return_index=True)[1])`: `np.unique` reports, for each
    distinct label, the index of its first occurrence; sorted, these are the
    first-occurrence positions in increasing order.
   */
  function FirstOccurrences<K(==)>(g: seq<K>): (r: seq<nat>)
    ensures forall k :: 0 <= k < |r| ==> r[k] < |g| && g[r[k]] !in g[..r[k]]
    ensures forall i :: 0 <= i < |g| && g[i] !in g[..i] ==> i in r
    ensures forall k, l :: 0 <= k < l < |r| ==> r[k] < r[l]
  {
    TrueIndices(FirstOccurrenceMask(g))
  }

  /** `[g[i] for i in sorted(indices)]`: the distinct labels of `g`, each listed once. */
  function Unique<K(==)>(g: seq<K>): (u: seq<K>)
    ensures |u| == |FirstOccurrences(g)|
    ensures forall k :: 0 <= k < |u| ==> u[k] == g[FirstOccurrences(g)[k]]
    ensures NoDuplicates(u)
    ensures forall x :: x in u ==> x in g
  {
    var idx := FirstOccurrences(g);
    var u := seq(|idx|, k requires 0 <= k < |idx| => g[idx[k]]);
    assert forall k, l :: 0 <= k < l < |u| ==> g[idx[k]] == g[..idx[l]][idx[k]];
    u
  }

  /**
    `Unique(g)` lists every label of `g` and nothing else, ordered by the
    position of each label's first occurrence.
   */
  lemma UniqueListsEachGroupOnce<K>(g: seq<K>)
    ensures forall x :: x in Unique(g) <==> x in g
    ensures forall k :: 0 <= k < |Unique(g)| ==> FirstIndex(g, Unique(g)[k]) == FirstOccurrences(g)[k]
    ensures forall k, l :: 0 <= k < l < |Unique(g)| ==> FirstIndex(g, Unique(g)[k]) < FirstIndex(g, Unique(g)[l])
  {
    var idx := FirstOccurrences(g);
    var u := Unique(g);
    forall x | x in g
      ensures x in u
    {
      var i := FirstIndex(g, x);
      assert FirstOccurrenceMask(g)[i];
      assert i in idx;
      var k :| 0 <= k < |idx| && idx[k] == i;
      assert u[k] == x;
    }
    forall k | 0 <= k < |u|
      ensures FirstIndex(g, u[k]) == idx[k]
    {
      FirstIndexAt(g, idx[k]);
    }
  }

  /** The position of `x` in a sequence without duplicates. */
  function PositionIn<K(==)>(u: seq<K>, x: K): (p: nat)
    requires x in u && NoDuplicates(u)
    ensures p < |u| && u[p] == x
    ensures forall q :: 0 <= q < |u| && u[q] == x ==> q == p
  {
    FirstIndex(u, x)
  }

  /**
    `{s: i for (i, s) in enumerate(dict.fromkeys(g))}`: `dict.fromkeys` keeps
    the distinct labels in first-occurrence order, so each label is mapped to
    its position in `Unique(g)`.
   */
  function LabelIndex<K(==)>(g: seq<K>): (m: map<K, int>)
    ensures forall x :: x in g ==> x in m
    ensures forall x :: x in m ==> 0 <= m[x] < |Unique(g)| && Unique(g)[m[x]] == x
  {
    var d := Unique(g);
    UniqueListsEachGroupOnce(g);
    map i | 0 <= i < |d| :: d[i] := i
  }

  /**
    `[to_int[s] for s in g]`: every label replaced by its number. Two positions
    get the same number exactly when they had the same label.
   */
  function Relabel<K(==)>(g: seq<K>): (r: seq<int>)
    ensures |r| == |g|
    ensures forall i :: 0 <= i < |g| ==> 0 <= r[i] < |Unique(g)| && Unique(g)[r[i]] == g[i]
    ensures forall i, j :: 0 <= i < |g| && 0 <= j < |g| ==> (r[i] == r[j] <==> g[i] == g[j])
  {
    var m := LabelIndex(g);
    seq(|g|, i requires 0 <= i < |g| => m[g[i]])
  }

  /** Two label sequences with the same equality pattern have the same first occurrences. */
  lemma SamePatternSameFirstOccurrences<K, L>(g: seq<K>, h: seq<L>)
    requires |g| == |h|
    requires forall i, j :: 0 <= i < |g| && 0 <= j < |g| ==> (g[i] == g[j] <==> h[i] == h[j])
    ensures FirstOccurrences(g) == FirstOccurrences(h)
  {
    var mg, mh := FirstOccurrenceMask(g), FirstOccurrenceMask(h);
    forall i | 0 <= i < |g|
      ensures mg[i] == mh[i]
    {
      if g[i] in g[..i] {
        var j :| 0 <= j < i && g[..i][j] == g[i];
        assert h[..i][j] == h[i];
      }
      if h[i] in h[..i] {
        var j :| 0 <= j < i && h[..i][j] == h[i];
        assert g[..i][j] == g[i];
      }
    }
    assert mg == mh;
  }

  /**
    After relabelling, the distinct groups are exactly 0, 1, 2, ... in
    first-occurrence order: the first label seen becomes 0, the next new one 1,
    and so on.
   */
  lemma RelabelNumbersInFirstOccurrenceOrder<K>(g: seq<K>)
    ensures Unique(Relabel(g)) == Range(|Unique(g)|)
  {
    var r := Relabel(g);
    SamePatternSameFirstOccurrences(g, r);
    var idx := FirstOccurrences(g);
    var u, ur := Unique(g), Unique(r);
    forall k | 0 <= k < |ur|
      ensures ur[k] == k
    {
      assert ur[k] == r[idx[k]];
      assert u[r[idx[k]]] == g[idx[k]] == u[k];
    }
  }

  /**
    Relabelling preserves the order of first appearance: one position's number
    is smaller than another's exactly when its label first occurs earlier.
   */
  lemma RelabelPreservesFirstOccurrenceOrder<K>(g: seq<K>, i: nat, j: nat)
    requires i < |g| && j < |g|
    ensures Relabel(g)[i] < Relabel(g)[j] <==> FirstIndex(g, g[i]) < FirstIndex(g, g[j])
  {
    var r := Relabel(g);
    var u := Unique(g);
    UniqueListsEachGroupOnce(g);
    assert FirstIndex(g, g[i]) == FirstIndex(g, u[r[i]]);
    assert FirstIndex(g, g[j]) == FirstIndex(g, u[r[j]]);
    if r[i] < r[j] {
      assert FirstIndex(g, u[r[i]]) < FirstIndex(g, u[r[j]]);
    } else if r[j] < r[i] {
      assert FirstIndex(g, u[r[j]]) < FirstIndex(g, u[r[i]]);
    }
  }

  /** Labels that are already distinct (such as `np.arange(n)`) are numbered by their position. */
  lemma RelabelDistinct<K>(g: seq<K>)
    requires NoDuplicates(g)
    ensures Relabel(g) == Range(|g|)
  {
    var r := Relabel(g);
    forall i | 0 <= i < |g|
      ensures r[i] == i
    {
      RelabelNumbersInFirstOccurrenceOrder(g);
      FirstOccurrencesOfDistinct(g);
      assert Unique(g)[r[i]] == g[r[i]];
    }
  }

  /** In a sequence without duplicates every position is a first occurrence. */
  lemma FirstOccurrencesOfDistinct<K>(g: seq<K>)
    requires NoDuplicates(g)
    ensures Unique(g) == g
  {
    var m := FirstOccurrenceMask(g);
    forall i | 0 <= i < |g|
      ensures m[i]
    {
      assert forall k :: 0 <= k < i ==> g[..i][k] == g[k];
    }
    TrueIndicesAllTrue(m);
  }

  lemma {:induction false} TrueIndicesAllTrue(m: seq<bool>)
    requires forall i :: 0 <= i < |m| ==> m[i]
    ensures |TrueIndices(m)| == |m|
    ensures forall k :: 0 <= k < |m| ==> TrueIndices(m)[k] == k
  {
    if |m| > 0 {
      TrueIndicesAllTrue(m[..|m| - 1]);
    }
  }
}
