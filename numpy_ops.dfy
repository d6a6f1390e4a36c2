/**
  The NumPy and Python sequence operations the splitter is built from:
  `np.arange`, `np.isin`, `~mask`, boolean indexing `data[mask]`, Python
  list slicing with negative bounds, and `np.array_split`.
  Arrays and lists are sequences; a boolean mask is a `seq<bool>`.
 */
module NumpyOps {

  /** `np.arange(n)`: the labels 0, 1, ..., n - 1. */
  function Range(n: nat): (r: seq<int>)
    ensures |r| == n
    ensures forall i :: 0 <= i < n ==> r[i] == i
  {
    seq(n, i => i)
  }

  predicate NoDuplicates<X(==)>(s: seq<X>) {
    forall i, j :: 0 <= i < j < |s| ==> s[i] != s[j]
  }

  /** In a sequence without duplicates, the element at `p` lies in `s[a..b]` exactly when `p` does. */
  lemma InSliceOfDistinct<X>(s: seq<X>, p: nat, a: nat, b: nat)
    requires NoDuplicates(s) && p < |s| && a <= b <= |s|
    ensures s[p] in s[a..b] <==> a <= p < b
  {
    if s[p] in s[a..b] {
      var j :| 0 <= j < b - a && s[a..b][j] == s[p];
      assert s[a + j] == s[p];
    }
    if a <= p < b {
      assert s[a..b][p - a] == s[p];
    }
  }

  /** `np.isin(a, values)`: for each element of `a`, whether it occurs in `values`. */
  function IsIn<X(==)>(a: seq<X>, values: seq<X>): (m: seq<bool>)
    ensures |m| == |a|
    ensures forall i :: 0 <= i < |a| ==> (m[i] <==> a[i] in values)
  {
    seq(|a|, i requires 0 <= i < |a| => a[i] in values)
  }

  /** `~mask`: the complementary mask. */
  function Not(m: seq<bool>): (r: seq<bool>)
    ensures |r| == |m|
    ensures forall i :: 0 <= i < |m| ==> r[i] == !m[i]
  {
    seq(|m|, i requires 0 <= i < |m| => !m[i])
  }

  /** The positions at which `m` is true, in increasing order. */
  function TrueIndices(m: seq<bool>): (r: seq<nat>)
    ensures forall k :: 0 <= k < |r| ==> r[k] < |m| && m[r[k]]
    ensures forall i :: 0 <= i < |m| && m[i] ==> i in r
    ensures forall k, l :: 0 <= k < l < |r| ==> r[k] < r[l]
  {
    if |m| == 0 then []
    else TrueIndices(m[..|m| - 1]) + (if m[|m| - 1] then [|m| - 1] else [])
  }

  /**
    `data[mask]`: the rows whose mask entry is true. Row `k` of the result is
    the row at the `k`-th true position, so the rows keep their original order.
   */
  function Masked<T>(rows: seq<T>, m: seq<bool>): (r: seq<T>)
    requires |rows| == |m|
    ensures |r| == |TrueIndices(m)|
    ensures forall k :: 0 <= k < |r| ==> r[k] == rows[TrueIndices(m)[k]]
  {
    if |m| == 0 then []
    else Masked(rows[..|m| - 1], m[..|m| - 1]) + (if m[|m| - 1] then [rows[|m| - 1]] else [])
  }

  /** A mask that is true everywhere keeps every row. */
  lemma {:induction false} MaskedAllTrue<T>(rows: seq<T>, m: seq<bool>)
    requires |rows| == |m|
    requires forall i :: 0 <= i < |m| ==> m[i]
    ensures Masked(rows, m) == rows
  {
    if |m| > 0 {
      MaskedAllTrue(rows[..|m| - 1], m[..|m| - 1]);
      assert rows == rows[..|m| - 1] + [rows[|m| - 1]];
    }
  }

  /** A mask that is false everywhere keeps no row. */
  lemma {:induction false} MaskedAllFalse<T>(rows: seq<T>, m: seq<bool>)
    requires |rows| == |m|
    requires forall i :: 0 <= i < |m| ==> !m[i]
    ensures Masked(rows, m) == []
  {
    if |m| > 0 {
      MaskedAllFalse(rows[..|m| - 1], m[..|m| - 1]);
    }
  }

  /** `data[mask]` and `data[~mask]` share the rows out between them: together they hold every row once. */
  lemma {:induction false} MaskedComplement<T>(rows: seq<T>, m: seq<bool>)
    requires |rows| == |m|
    ensures multiset(Masked(rows, m)) + multiset(Masked(rows, Not(m))) == multiset(rows)
  {
    if |m| > 0 {
      var n := |m| - 1;
      assert Not(m)[..n] == Not(m[..n]);
      MaskedComplement(rows[..n], m[..n]);
      assert rows == rows[..n] + [rows[n]];
    }
  }

  /** Exactly one of the three flags is set. */
  predicate ExactlyOne(a: bool, b: bool, c: bool) {
    (a && !b && !c) || (!a && b && !c) || (!a && !b && c)
  }

  /** Three masks that select every position exactly once share the rows out between them. */
  lemma {:induction false} MaskedThreeWay<T>(rows: seq<T>, a: seq<bool>, b: seq<bool>, c: seq<bool>)
    requires |a| == |rows| && |b| == |rows| && |c| == |rows|
    requires forall i :: 0 <= i < |rows| ==> ExactlyOne(a[i], b[i], c[i])
    ensures multiset(Masked(rows, a)) + multiset(Masked(rows, b)) + multiset(Masked(rows, c)) == multiset(rows)
  {
    if |rows| > 0 {
      var n := |rows| - 1;
      MaskedThreeWay(rows[..n], a[..n], b[..n], c[..n]);
      assert rows == rows[..n] + [rows[n]];
    }
  }

  /** Where a Python slice bound lands: negative bounds count from the end, and both ends are clipped. */
  function Clamp(i: int, n: nat): (c: nat)
    ensures c <= n
    ensures 0 <= i <= n ==> c == i
    ensures -(n as int) <= i < 0 ==> c == n + i
    ensures i < -(n as int) ==> c == 0
    ensures i > n ==> c == n
  {
    if i < 0 then (if i + n < 0 then 0 else i + n)
    else if i > n then n
    else i
  }

  /** Python's `s[lo:hi]`: the elements between the two clamped bounds, or nothing when they cross. */
  function Slice<X>(s: seq<X>, lo: int, hi: int): (r: seq<X>)
    ensures Clamp(lo, |s|) < Clamp(hi, |s|) ==> r == s[Clamp(lo, |s|)..Clamp(hi, |s|)]
    ensures Clamp(hi, |s|) <= Clamp(lo, |s|) ==> r == []
  {
    var a := Clamp(lo, |s|);
    var b := Clamp(hi, |s|);
    if a < b then s[a..b] else []
  }

  /**
    Where section `k` starts when `len` items are cut into `n` sections the way
    `np.array_split` does: the running sum of the section sizes, the first
    `len % n` of which are `len / n + 1` and the others `len / n`.
   */
  function SectionStart(len: nat, n: nat, k: nat): nat
    requires 0 < n && k <= n
  {
    if k == 0 then 0
    else SectionStart(len, n, k - 1) + len / n + (if k - 1 < len % n then 1 else 0)
  }

  lemma {:induction false} SectionStartClosedForm(len: nat, n: nat, k: nat)
    requires 0 < n && k <= n
    ensures SectionStart(len, n, k) == k * (len / n) + (if k < len % n then k else len % n)
  {
    if k > 0 {
      SectionStartClosedForm(len, n, k - 1);
      assert k * (len / n) == (k - 1) * (len / n) + len / n;
    }
  }

  /** The sections tile `[0, len)`: the last one ends at `len`, and the starts never decrease. */
  lemma {:induction false} SectionsTile(len: nat, n: nat)
    requires 0 < n
    ensures SectionStart(len, n, n) == len
    ensures forall k, l :: 0 <= k <= l <= n ==> SectionStart(len, n, k) <= SectionStart(len, n, l)
  {
    SectionStartClosedForm(len, n, n);
    assert len == n * (len / n) + len % n;
    forall k, l | 0 <= k <= l <= n
      ensures SectionStart(len, n, k) <= SectionStart(len, n, l)
    {
      SectionStartMonotone(len, n, k, l);
    }
  }

  lemma {:induction false} SectionStartMonotone(len: nat, n: nat, k: nat, l: nat)
    requires 0 < n && k <= l <= n
    ensures SectionStart(len, n, k) <= SectionStart(len, n, l)
    decreases l - k
  {
    if k < l {
      SectionStartMonotone(len, n, k, l - 1);
    }
  }

  /** `np.array_split(s, n)`: `n` consecutive sections, the first `|s| % n` of them one item longer. */
  function ArraySplit<X>(s: seq<X>, n: nat): (chunks: seq<seq<X>>)
    requires 0 < n
    ensures |chunks| == n
    ensures forall k :: 0 <= k < n ==> |chunks[k]| == |s| / n + (if k < |s| % n then 1 else 0)
  {
    SectionsTile(|s|, n);
    seq(n, k requires 0 <= k < n => s[SectionStart(|s|, n, k)..SectionStart(|s|, n, k + 1)])
  }

  /** The items of a sequence of sequences, one after the other. */
  function Concat<X>(ss: seq<seq<X>>): seq<X> {
    if |ss| == 0 then [] else Concat(ss[..|ss| - 1]) + ss[|ss| - 1]
  }

  /** The sections of `np.array_split`, put back together, give the input back. */
  lemma ArraySplitConcat<X>(s: seq<X>, n: nat)
    requires 0 < n
    ensures Concat(ArraySplit(s, n)) == s
  {
    var chunks := ArraySplit(s, n);
    SectionsTile(|s|, n);
    ConcatPrefix(s, n, n);
    assert chunks[..n] == chunks;
  }

  lemma {:induction false} ConcatPrefix<X>(s: seq<X>, n: nat, k: nat)
    requires 0 < n && k <= n
    ensures SectionStart(|s|, n, k) <= |s| && Concat(ArraySplit(s, n)[..k]) == s[..SectionStart(|s|, n, k)]
  {
    SectionsTile(|s|, n);
    if k > 0 {
      var chunks := ArraySplit(s, n);
      ConcatPrefix(s, n, k - 1);
      assert chunks[..k][..k - 1] == chunks[..k - 1];
      var a := SectionStart(|s|, n, k - 1);
      var b := SectionStart(|s|, n, k);
      assert s[..b] == s[..a] + s[a..b];
    }
  }

  /** The section of `np.array_split(_, n)` over `len` items that holds position `p`. */
  function SectionOf(len: nat, n: nat, p: nat): (k: nat)
    requires 0 < n && p < len
    ensures k < n && SectionStart(len, n, k) <= p < SectionStart(len, n, k + 1)
  {
    SectionsTile(len, n);
    SectionFrom(len, n, p, 0)
  }

  function SectionFrom(len: nat, n: nat, p: nat, k: nat): (c: nat)
    requires 0 < n && k < n && SectionStart(len, n, k) <= p < len
    requires SectionStart(len, n, n) == len
    ensures k <= c < n && SectionStart(len, n, c) <= p < SectionStart(len, n, c + 1)
    decreases n - k
  {
    if p < SectionStart(len, n, k + 1) then k else SectionFrom(len, n, p, k + 1)
  }

  /** Position `p` lies in section `k` exactly when `k` is `SectionOf(p)`: each position is in one section only. */
  lemma {:induction false} SectionOfUnique(len: nat, n: nat, p: nat, k: nat)
    requires 0 < n && p < len && k < n
    ensures SectionStart(len, n, k) <= p < SectionStart(len, n, k + 1) <==> k == SectionOf(len, n, p)
  {
    var c := SectionOf(len, n, p);
    if SectionStart(len, n, k) <= p < SectionStart(len, n, k + 1) && k != c {
      if k < c {
        SectionStartMonotone(len, n, k + 1, c);
      } else {
        SectionStartMonotone(len, n, c + 1, k);
      }
    }
  }
}
