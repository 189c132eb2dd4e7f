/** msvcrt_qsort: the in-place, non-recursive quicksort of the C runtime shim (shim_msvcrt.hpp).

    The sort works on raw bytes: n elements of sz bytes each. Everything is specified through
    View, the sequence of elements that those bytes hold. */
module Qsort {
  import opened Common
  import opened Bytes

  type Element = seq<byte>
  type Comparator = (Element, Element) -> int

  const CUTOFF: nat := 8
  const STKSIZ: nat := 62

  ghost predicate Mirrored(cmp: Comparator, x: Element, y: Element) {
    cmp(x, y) > 0 <==> cmp(y, x) < 0
  }

  ghost predicate Chained(cmp: Comparator, x: Element, y: Element, z: Element) {
    cmp(x, y) <= 0 && cmp(y, z) <= 0 ==> cmp(x, z) <= 0
  }

  /** What the C standard demands of the callback: signs agree when the arguments are swapped,
      and "not greater" is transitive. Elements may compare equal without being equal. */
  ghost predicate TotalPreorder(cmp: Comparator, sz: nat) {
    && (forall x: Element, y: Element {:trigger Mirrored(cmp, x, y)} ::
          |x| == sz && |y| == sz ==> Mirrored(cmp, x, y))
    && (forall x: Element, y: Element, z: Element {:trigger Chained(cmp, x, y, z)} ::
          |x| == sz && |y| == sz && |z| == sz ==> Chained(cmp, x, y, z))
  }

  // ------------------------------------------------------------------------
  // Elements of a byte buffer
  // ------------------------------------------------------------------------

  lemma RowFits(n: nat, sz: nat, i: nat)
    requires i < n
    ensures 0 <= i * sz && i * sz + sz <= n * sz
  {
    assert n * sz == i * sz + sz + (n - i - 1) * sz;
  }

  lemma RowsApart(sz: nat, i: nat, j: nat)
    requires i < j
    ensures i * sz + sz <= j * sz
  {
    assert j * sz == i * sz + sz + (j - i - 1) * sz;
  }

  /** The elements in order. Recursive, so that only ViewAt speaks of products of sizes. */
  ghost function View(s: seq<byte>, n: nat, sz: nat): (v: seq<Element>)
    requires |s| == n * sz
    ensures |v| == n && AllWidth(v, sz)
    decreases n
  {
    if n == 0 then [] else
      RowFits(n, sz, 0);
      assert n * sz - sz == (n - 1) * sz;
      [s[..sz]] + View(s[sz..], n - 1, sz)
  }

  lemma {:induction false} ViewAt(s: seq<byte>, n: nat, sz: nat, i: nat)
    requires |s| == n * sz && i < n
    ensures 0 <= i * sz && i * sz + sz <= |s|
    ensures View(s, n, sz)[i] == s[i * sz..i * sz + sz]
    decreases n
  {
    RowFits(n, sz, i);
    if i == 0 {
      assert 0 * sz == 0;
    } else {
      assert |s[sz..]| == (n - 1) * sz by { assert n * sz - sz == (n - 1) * sz; }
      ViewAt(s[sz..], n - 1, sz, i - 1);
      assert i * sz == sz + (i - 1) * sz;
      var I := (i - 1) * sz;
      assert s[sz..][I..I + sz] == s[sz + I..sz + I + sz];
    }
  }

  ghost function Swapped<T>(v: seq<T>, i: nat, j: nat): (w: seq<T>)
    requires i < |v| && j < |v|
    ensures |w| == |v|
  {
    v[i := v[j]][j := v[i]]
  }

  lemma SwappedMultiset<T>(v: seq<T>, i: nat, j: nat)
    requires i < |v| && j < |v|
    ensures multiset(Swapped(v, i, j)) == multiset(v)
  {
  }

  /** The first k bytes of the rows at I and J of s have changed places in t. */
  ghost predicate RowSwapped(s: seq<byte>, t: seq<byte>, I: nat, J: nat, k: nat)
    requires I + k <= |s| && J + k <= |s| && |s| == |t|
  {
    && t[I..I + k] == s[J..J + k] && t[J..J + k] == s[I..I + k]
    && (forall q :: 0 <= q < |s| && !(I <= q < I + k) && !(J <= q < J + k) ==> t[q] == s[q])
  }

  lemma RowUntouched(s: seq<byte>, t: seq<byte>, n: nat, sz: nat, i: nat, j: nat, m: nat)
    requires |s| == |t| == n * sz && i < n && j < n && m < n && m != i && m != j
    requires 0 <= i * sz && i * sz + sz <= |s| && 0 <= j * sz && j * sz + sz <= |s|
    requires RowSwapped(s, t, i * sz, j * sz, sz)
    ensures View(t, n, sz)[m] == View(s, n, sz)[m]
  {
    ViewAt(s, n, sz, m);
    ViewAt(t, n, sz, m);
    if m < i { RowsApart(sz, m, i); } else { RowsApart(sz, i, m); }
    if m < j { RowsApart(sz, m, j); } else { RowsApart(sz, j, m); }
    var M := m * sz;
    assert t[M..M + sz] == s[M..M + sz];
  }

  lemma RowSwappedView(s: seq<byte>, t: seq<byte>, n: nat, sz: nat, i: nat, j: nat)
    requires |s| == |t| == n * sz && i < n && j < n
    requires 0 <= i * sz && i * sz + sz <= |s| && 0 <= j * sz && j * sz + sz <= |s|
    requires RowSwapped(s, t, i * sz, j * sz, sz)
    ensures View(t, n, sz) == Swapped(View(s, n, sz), i, j)
  {
    var v, w := View(s, n, sz), View(t, n, sz);
    ViewAt(s, n, sz, i);
    ViewAt(s, n, sz, j);
    ViewAt(t, n, sz, i);
    ViewAt(t, n, sz, j);
    forall m | 0 <= m < n && m != i && m != j
      ensures w[m] == v[m]
    {
      RowUntouched(s, t, n, sz, i, j, m);
    }
    assert w == Swapped(v, i, j);
  }

  /** ms_swap_elems. */
  method SwapElems(a: array<byte>, n: nat, i: nat, j: nat, sz: nat)
    requires a.Length == n * sz && i < n && j < n
    modifies a
    ensures View(a[..], n, sz) == Swapped(old(View(a[..], n, sz)), i, j)
  {
    RowFits(n, sz, i);
    RowFits(n, sz, j);
    if i < j { RowsApart(sz, i, j); }
    if j < i { RowsApart(sz, j, i); }
    var I, J := i * sz, j * sz;
    ghost var s := a[..];
    SwapBytes(a, I, J, sz);
    RowSwappedView(s, a[..], n, sz, i, j);
  }

  /** The byte loop of ms_swap_elems. */
  method SwapBytes(a: array<byte>, I: nat, J: nat, sz: nat)
    requires I + sz <= a.Length && J + sz <= a.Length && (I == J || I + sz <= J || J + sz <= I)
    modifies a
    ensures RowSwapped(old(a[..]), a[..], I, J, sz)
  {
    ghost var s := a[..];
    var k := 0;
    assert Exchanged(s, a[..], I, J, 0);
    while k < sz
      invariant 0 <= k <= sz && Exchanged(s, a[..], I, J, k)
    {
      ghost var t := a[..];
      var x := a[I + k];
      a[I + k] := a[J + k];
      a[J + k] := x;
      assert a[..] == t[I + k := t[J + k]][J + k := t[I + k]];
      ExchangedMore(s, t, I, J, k);
      k := k + 1;
    }
    ExchangedRows(s, a[..], I, J, sz);
  }

  /** Byte q once the first k bytes of the rows at I and J have changed places. */
  ghost function MovedByte(s: seq<byte>, I: nat, J: nat, k: nat, q: nat): byte
    requires I + k <= |s| && J + k <= |s| && q < |s|
  {
    if I <= q < I + k then s[q - I + J] else if J <= q < J + k then s[q - J + I] else s[q]
  }

  ghost predicate Exchanged(s: seq<byte>, t: seq<byte>, I: nat, J: nat, k: nat)
    requires I + k <= |s| && J + k <= |s|
  {
    |s| == |t| && forall q :: 0 <= q < |s| ==> t[q] == MovedByte(s, I, J, k, q)
  }

  lemma ExchangedMore(s: seq<byte>, t: seq<byte>, I: nat, J: nat, k: nat)
    requires I + k < |s| && J + k < |s| && (I == J || I + k < J || J + k < I) && Exchanged(s, t, I, J, k)
    ensures Exchanged(s, t[I + k := t[J + k]][J + k := t[I + k]], I, J, k + 1)
  {
    assert t[I + k] == MovedByte(s, I, J, k, I + k) && t[J + k] == MovedByte(s, I, J, k, J + k);
    var u := t[I + k := t[J + k]][J + k := t[I + k]];
    forall q | 0 <= q < |s| ensures u[q] == MovedByte(s, I, J, k + 1, q) {
      assert t[q] == MovedByte(s, I, J, k, q);
    }
  }

  lemma ExchangedRows(s: seq<byte>, t: seq<byte>, I: nat, J: nat, sz: nat)
    requires I + sz <= |s| && J + sz <= |s| && (I == J || I + sz <= J || J + sz <= I) && Exchanged(s, t, I, J, sz)
    ensures RowSwapped(s, t, I, J, sz)
  {
    assert forall q :: 0 <= q < |s| ==> t[q] == MovedByte(s, I, J, sz, q);
  }

  /** ms_cmp_elems. Its precondition is the promise that the callback never sees one position
      against itself. */
  method CompareElems(cmp: Comparator, a: array<byte>, n: nat, i: nat, j: nat, sz: nat) returns (r: int)
    requires a.Length == n * sz && i < n && j < n && i != j
    ensures r == cmp(View(a[..], n, sz)[i], View(a[..], n, sz)[j])
  {
    ViewAt(a[..], n, sz, i);
    ViewAt(a[..], n, sz, j);
    r := cmp(a[i * sz..i * sz + sz], a[j * sz..j * sz + sz]);
  }

  // ------------------------------------------------------------------------
  // Rearranging one range
  // ------------------------------------------------------------------------

  /** w is v with the elements at lo..hi rearranged. */
  ghost predicate RangePerm<T(!new)>(v: seq<T>, w: seq<T>, lo: nat, hi: nat) {
    && |v| == |w| && lo <= hi < |v|
    && (forall i :: 0 <= i < |v| && !(lo <= i <= hi) ==> v[i] == w[i])
    && multiset(v) == multiset(w)
  }

  lemma RangePermSwap<T(!new)>(u: seq<T>, v: seq<T>, lo: nat, hi: nat, i: nat, j: nat)
    requires RangePerm(u, v, lo, hi) && lo <= i <= hi && lo <= j <= hi
    ensures RangePerm(u, Swapped(v, i, j), lo, hi)
  {
    SwappedMultiset(v, i, j);
  }

  /** How often x is in the middle of a sequence: in the whole, less the ends. */
  lemma CountMiddle<T>(v: seq<T>, lo: nat, hi: nat, x: T)
    requires lo <= hi < |v|
    ensures multiset(v)[x] == multiset(v[..lo])[x] + multiset(v[lo..hi + 1])[x] + multiset(v[hi + 1..])[x]
  {
    assert v == v[..lo] + v[lo..hi + 1] + v[hi + 1..];
  }

  lemma RangePermSource<T(!new)>(v: seq<T>, w: seq<T>, lo: nat, hi: nat, i: nat)
    returns (k: nat)
    requires RangePerm(v, w, lo, hi) && lo <= i <= hi
    ensures lo <= k <= hi && w[i] == v[k]
  {
    var x := w[i];
    CountMiddle(v, lo, hi, x);
    CountMiddle(w, lo, hi, x);
    assert v[..lo] == w[..lo] && v[hi + 1..] == w[hi + 1..];
    var vm, wm := v[lo..hi + 1], w[lo..hi + 1];
    assert wm[i - lo] == x && x in wm;
    assert x in vm;
    var m :| 0 <= m < |vm| && vm[m] == x;
    k := lo + m;
  }

  // ------------------------------------------------------------------------
  // Sorted but for the pending ranges
  // ------------------------------------------------------------------------

  type Range = (nat, nat)

  ghost predicate Together(rs: seq<Range>, i: nat, j: nat) {
    exists k :: 0 <= k < |rs| && rs[k].0 <= i && j <= rs[k].1
  }

  /** Any two positions are in order unless one pending range holds both. */
  ghost predicate Ordered(cmp: Comparator, v: seq<Element>, rs: seq<Range>) {
    forall i: nat, j: nat {:trigger Together(rs, i, j)} ::
      i < j < |v| ==> cmp(v[i], v[j]) <= 0 || Together(rs, i, j)
  }

  ghost predicate AtMost(cmp: Comparator, v: seq<Element>, from: nat, to: nat, p: Element)
    requires to <= |v|
  {
    forall i :: from <= i < to ==> cmp(v[i], p) <= 0
  }

  ghost predicate Above(cmp: Comparator, v: seq<Element>, from: nat, to: nat, p: Element)
    requires to <= |v|
  {
    forall i :: from <= i < to ==> cmp(v[i], p) > 0
  }

  ghost predicate Equal(cmp: Comparator, v: seq<Element>, from: nat, to: nat, p: Element)
    requires to <= |v|
  {
    forall i :: from <= i < to ==> cmp(v[i], p) == 0
  }

  /** Positions from..to are in order, and everything at or after from is at least what precedes it from lo. */
  ghost predicate TopSorted(cmp: Comparator, v: seq<Element>, lo: nat, from: nat, hi: nat)
    requires hi < |v|
  {
    forall i, j :: lo <= i < j && from <= j <= hi ==> cmp(v[i], v[j]) <= 0
  }

  ghost predicate InOrderBut(cmp: Comparator, v: seq<Element>, lo: nat, hi: nat, rs: seq<Range>)
    requires hi < |v|
  {
    forall i, j :: lo <= i < j <= hi ==> cmp(v[i], v[j]) <= 0 || Together(rs, i, j)
  }

  ghost predicate Sorted(cmp: Comparator, v: seq<Element>) {
    forall i, j :: 0 <= i < j < |v| ==> cmp(v[i], v[j]) <= 0
  }

  ghost predicate Apart(r: Range, q: Range) { r.1 < q.0 || q.1 < r.0 }

  ghost predicate Ranges(rs: seq<Range>, n: nat) {
    && (forall k :: 0 <= k < |rs| ==> rs[k].0 <= rs[k].1 < n)
    && (forall k, m :: 0 <= k < m < |rs| ==> Apart(rs[k], rs[m]))
  }

  lemma TogetherAppend(rs: seq<Range>, ss: seq<Range>, i: nat, j: nat)
    ensures Together(rs + ss, i, j) <==> Together(rs, i, j) || Together(ss, i, j)
  {
    if Together(rs, i, j) {
      var k :| 0 <= k < |rs| && rs[k].0 <= i && j <= rs[k].1;
      assert (rs + ss)[k] == rs[k];
    }
    if Together(ss, i, j) {
      var k :| 0 <= k < |ss| && ss[k].0 <= i && j <= ss[k].1;
      assert (rs + ss)[|rs| + k] == ss[k];
    }
  }

  /** Rearranging one pending range and cutting it into the ranges ss keeps the order of the rest. */
  lemma Refine(cmp: Comparator, v: seq<Element>, w: seq<Element>, rs: seq<Range>, lo: nat, hi: nat, ss: seq<Range>)
    requires Ordered(cmp, v, rs + [(lo, hi)]) && Ranges(rs + [(lo, hi)], |v|)
    requires RangePerm(v, w, lo, hi)
    requires InOrderBut(cmp, w, lo, hi, ss)
    ensures Ordered(cmp, w, rs + ss)
  {
    var all := rs + [(lo, hi)];
    forall i, j | 0 <= i < j < |w|
      ensures cmp(w[i], w[j]) <= 0 || Together(rs + ss, i, j)
    {
      TogetherAppend(rs, ss, i, j);
      if !(lo <= i && j <= hi) && !Together(rs, i, j) {
        var k, m := i, j;
        if lo <= i <= hi { k := RangePermSource(v, w, lo, hi, i); }
        if lo <= j <= hi { m := RangePermSource(v, w, lo, hi, j); }
        assert w[i] == v[k] && w[j] == v[m] && k < m;
        TogetherAppend(rs, [(lo, hi)], k, m);
        NotTogether(rs, |v|, lo, hi, i, j, k, m);
      }
    }
  }

  /** A pair that no other pending range holds is still split after one end moves within lo..hi. */
  lemma NotTogether(rs: seq<Range>, n: nat, lo: nat, hi: nat, i: nat, j: nat, k: nat, m: nat)
    requires Ranges(rs + [(lo, hi)], n)
    requires !Together(rs, i, j) && k < m
    requires if lo <= i <= hi then lo <= k <= hi else k == i
    requires if lo <= j <= hi then lo <= m <= hi else m == j
    ensures !Together(rs, k, m)
  {
    forall q | 0 <= q < |rs|
      ensures !(rs[q].0 <= k && m <= rs[q].1)
    {
      var all := rs + [(lo, hi)];
      assert Apart(all[q], all[|rs|]);
    }
  }

  // ------------------------------------------------------------------------
  // Small ranges
  // ------------------------------------------------------------------------

  /** The inner loop: the last of the largest elements of lo..shi. */
  method FindMax(a: array<byte>, n: nat, sz: nat, cmp: Comparator, lo: nat, shi: nat) returns (max: nat)
    requires a.Length == n * sz && lo <= shi < n && TotalPreorder(cmp, sz)
    ensures lo <= max <= shi
    ensures AtMost(cmp, View(a[..], n, sz), lo, shi + 1, View(a[..], n, sz)[max])
  {
    ghost var v := View(a[..], n, sz);
    max := lo;
    var p := lo + 1;
    assert Mirrored(cmp, v[lo], v[lo]);
    while p <= shi
      invariant lo < p <= shi + 1 && lo <= max < p
      invariant AtMost(cmp, v, lo, p, v[max])
    {
      var c := CompareElems(cmp, a, n, p, max, sz);
      assert Mirrored(cmp, v[p], v[p]);
      if c > 0 {
        assert Mirrored(cmp, v[p], v[max]);
        forall i | lo <= i < p ensures cmp(v[i], v[p]) <= 0 { assert Chained(cmp, v[i], v[max], v[p]); }
        max := p;
      }
      p := p + 1;
    }
  }

  lemma TopSortedSwap(cmp: Comparator, v: seq<Element>, lo: nat, shi: nat, hi: nat, max: nat)
    requires hi < |v| && lo <= max <= shi <= hi
    requires TopSorted(cmp, v, lo, shi + 1, hi)
    requires AtMost(cmp, v, lo, shi + 1, v[max])
    ensures TopSorted(cmp, Swapped(v, max, shi), lo, shi, hi)
  {
    var w := Swapped(v, max, shi);
    forall i, j | lo <= i < j && shi <= j <= hi
      ensures cmp(w[i], w[j]) <= 0
    {
      var k := if i == max then shi else if i == shi then max else i;
      assert w[i] == v[k];
      if j > shi { assert w[j] == v[j] && k < j; } else { assert w[j] == v[max]; }
    }
  }

  /** The selection sort used up to CUTOFF elements. */
  method SelectionSort(a: array<byte>, n: nat, sz: nat, cmp: Comparator, lo: nat, hi: nat)
    requires a.Length == n * sz && lo <= hi < n && TotalPreorder(cmp, sz)
    modifies a
    ensures RangePerm(old(View(a[..], n, sz)), View(a[..], n, sz), lo, hi)
    ensures InOrderBut(cmp, View(a[..], n, sz), lo, hi, [])
  {
    ghost var v0 := View(a[..], n, sz);
    var shi := hi;
    while shi > lo
      invariant lo <= shi <= hi
      invariant RangePerm(v0, View(a[..], n, sz), lo, hi)
      invariant TopSorted(cmp, View(a[..], n, sz), lo, shi + 1, hi)
    {
      ghost var v := View(a[..], n, sz);
      var max := FindMax(a, n, sz, cmp, lo, shi);
      SwapElems(a, n, max, shi, sz);
      RangePermSwap(v0, v, lo, hi, max, shi);
      TopSortedSwap(cmp, v, lo, shi, hi, max);
      shi := shi - 1;
    }
  }

  // ------------------------------------------------------------------------
  // Partition
  // ------------------------------------------------------------------------

  method SwapIfAbove(a: array<byte>, n: nat, sz: nat, cmp: Comparator, i: nat, j: nat)
    requires a.Length == n * sz && i < j < n && TotalPreorder(cmp, sz)
    modifies a
    ensures var v, w := old(View(a[..], n, sz)), View(a[..], n, sz);
      && w == (if cmp(v[i], v[j]) > 0 then Swapped(v, i, j) else v)
      && cmp(w[i], w[j]) <= 0
  {
    ghost var v := View(a[..], n, sz);
    assert Mirrored(cmp, v[i], v[j]);
    var c := CompareElems(cmp, a, n, i, j, sz);
    if c > 0 { SwapElems(a, n, i, j, sz); }
  }

  /** After the first two exchanges the least of the three is at lo. */
  lemma LeastFirst(cmp: Comparator, sz: nat, v: seq<Element>, w: seq<Element>, lo: nat, mid: nat, hi: nat)
    requires TotalPreorder(cmp, sz) && lo < mid < hi < |v| && |v[lo]| == |v[mid]| == |v[hi]| == sz
    requires cmp(v[lo], v[mid]) <= 0 && w == if cmp(v[lo], v[hi]) > 0 then Swapped(v, lo, hi) else v
    ensures cmp(w[lo], w[mid]) <= 0
  {
    assert Mirrored(cmp, v[lo], v[hi]) && Chained(cmp, v[hi], v[lo], v[mid]);
  }

  lemma MedianPerm(u: seq<Element>, v: seq<Element>, w: seq<Element>, x: seq<Element>, lo: nat, mid: nat, hi: nat)
    requires lo < mid < hi < |u| && (v == u || v == Swapped(u, lo, mid))
    requires (w == v || w == Swapped(v, lo, hi)) && (x == w || x == Swapped(w, mid, hi))
    ensures RangePerm(u, x, lo, hi)
  {
    RangePermSwap(u, u, lo, hi, lo, mid);
    RangePermSwap(u, v, lo, hi, lo, hi);
    RangePermSwap(u, w, lo, hi, mid, hi);
  }

  lemma MedianOrder(cmp: Comparator, w: seq<Element>, x: seq<Element>, lo: nat, mid: nat, hi: nat)
    requires lo < mid < hi < |w| && cmp(w[lo], w[mid]) <= 0 && cmp(w[lo], w[hi]) <= 0
    requires (x == w || x == Swapped(w, mid, hi)) && cmp(x[mid], x[hi]) <= 0
    ensures cmp(x[lo], x[mid]) <= 0 && cmp(x[mid], x[hi]) <= 0
  {
  }

  method MedianOfThree(a: array<byte>, n: nat, sz: nat, cmp: Comparator, lo: nat, mid: nat, hi: nat)
    requires a.Length == n * sz && lo < mid < hi < n && TotalPreorder(cmp, sz)
    modifies a
    ensures RangePerm(old(View(a[..], n, sz)), View(a[..], n, sz), lo, hi)
    ensures var w := View(a[..], n, sz); cmp(w[lo], w[mid]) <= 0 && cmp(w[mid], w[hi]) <= 0
  {
    hide View, RangePerm, Swapped, TotalPreorder;
    ghost var u := View(a[..], n, sz);
    SwapIfAbove(a, n, sz, cmp, lo, mid);
    ghost var v := View(a[..], n, sz);
    SwapIfAbove(a, n, sz, cmp, lo, hi);
    ghost var w := View(a[..], n, sz);
    LeastFirst(cmp, sz, v, w, lo, mid, hi);
    SwapIfAbove(a, n, sz, cmp, mid, hi);
    MedianPerm(u, v, w, View(a[..], n, sz), lo, mid, hi);
    MedianOrder(cmp, w, View(a[..], n, sz), lo, mid, hi);
  }

  /** What holds at the head of the partition loop: low elements up to loguy, high ones from higuy. */
  ghost predicate Split(cmp: Comparator, v: seq<Element>, lo: nat, hi: nat, mid: nat, loguy: nat, higuy: nat,
                        pivot: Element)
  {
    && hi < |v| && lo < mid < higuy <= hi && lo <= loguy < higuy
    && v[mid] == pivot
    && AtMost(cmp, v, lo, loguy + 1, pivot)
    && Above(cmp, v, higuy, hi, pivot)
    && cmp(pivot, v[hi]) <= 0
  }

  /** The two-part upward scan: past everything not above the pivot, never comparing mid with itself. */
  method ScanUp(a: array<byte>, n: nat, sz: nat, cmp: Comparator, lo: nat, hi: nat, mid: nat, start: nat)
    returns (loguy: nat)
    requires a.Length == n * sz && lo < mid < hi < n && lo <= start < hi && TotalPreorder(cmp, sz)
    requires AtMost(cmp, View(a[..], n, sz), lo, start + 1, View(a[..], n, sz)[mid])
    ensures start < loguy <= hi + 1
    ensures var v := View(a[..], n, sz);
      && AtMost(cmp, v, lo, loguy, v[mid])
      && (loguy <= hi ==> cmp(v[loguy], v[mid]) > 0)
  {
    ghost var v := View(a[..], n, sz);
    assert Mirrored(cmp, v[mid], v[mid]);
    loguy := start;
    var go := mid > loguy;
    while go
      invariant start <= loguy && (start < mid ==> loguy <= mid)
      invariant start >= mid ==> !go && loguy == start
      invariant AtMost(cmp, v, lo, loguy, v[mid])
      invariant go ==> loguy < mid && cmp(v[loguy], v[mid]) <= 0
      invariant !go && start < mid ==> start < loguy && (loguy == mid || cmp(v[loguy], v[mid]) > 0)
      decreases mid - loguy, go
    {
      loguy := loguy + 1;
      go := loguy < mid;
      if go {
        var c := CompareElems(cmp, a, n, loguy, mid, sz);
        go := c <= 0;
      }
    }
    go := mid <= loguy;
    while go
      invariant start <= loguy <= hi + 1
      invariant AtMost(cmp, v, lo, loguy, v[mid])
      invariant go ==> mid <= loguy <= hi && cmp(v[loguy], v[mid]) <= 0
      invariant !go ==> start < loguy && (loguy > hi || cmp(v[loguy], v[mid]) > 0)
      decreases hi + 1 - loguy, go
    {
      loguy := loguy + 1;
      go := loguy <= hi;
      if go {
        var c := CompareElems(cmp, a, n, loguy, mid, sz);
        go := c <= 0;
      }
    }
  }

  /** The downward scan: past everything above the pivot, stopping at mid at the latest. */
  method ScanDown(a: array<byte>, n: nat, sz: nat, cmp: Comparator, hi: nat, mid: nat, start: nat)
    returns (higuy: nat)
    requires a.Length == n * sz && mid < start <= hi < n && TotalPreorder(cmp, sz)
    requires Above(cmp, View(a[..], n, sz), start, hi, View(a[..], n, sz)[mid])
    ensures mid <= higuy < start
    ensures var v := View(a[..], n, sz);
      && Above(cmp, v, higuy + 1, hi, v[mid])
      && cmp(v[higuy], v[mid]) <= 0
  {
    ghost var v := View(a[..], n, sz);
    assert Mirrored(cmp, v[mid], v[mid]);
    higuy := start;
    var go := true;
    while go
      invariant mid <= higuy <= start
      invariant Above(cmp, v, higuy + 1, hi, v[mid])
      invariant go ==> mid < higuy && (higuy == start || cmp(v[higuy], v[mid]) > 0)
      invariant !go ==> higuy < start && cmp(v[higuy], v[mid]) <= 0
      decreases higuy, go
    {
      higuy := higuy - 1;
      go := higuy > mid;
      if go {
        var c := CompareElems(cmp, a, n, higuy, mid, sz);
        go := c > 0;
      }
    }
  }

  /** The final downward scan over elements equal to the pivot. */
  method SkipEqual(a: array<byte>, n: nat, sz: nat, cmp: Comparator, lo: nat, mid: nat, start: nat)
    returns (higuy: nat)
    requires a.Length == n * sz && lo < mid <= start < n && TotalPreorder(cmp, sz)
    ensures lo <= higuy <= start
    ensures Equal(cmp, View(a[..], n, sz), higuy + 1, start + 1, View(a[..], n, sz)[mid])
  {
    ghost var v := View(a[..], n, sz);
    assert Mirrored(cmp, v[mid], v[mid]);
    higuy := start + 1;
    var go := mid < higuy;
    while go
      invariant mid <= higuy <= start + 1
      invariant Equal(cmp, v, higuy + 1, start + 1, v[mid])
      invariant go ==> Equal(cmp, v, higuy, start + 1, v[mid])
      invariant go ==> mid < higuy
      invariant !go ==> higuy <= start
      decreases higuy, go
    {
      higuy := higuy - 1;
      go := higuy > mid;
      if go {
        var c := CompareElems(cmp, a, n, higuy, mid, sz);
        go := c == 0;
      }
    }
    go := mid >= higuy;
    while go
      invariant lo <= higuy <= start
      invariant Equal(cmp, v, higuy + 1, start + 1, v[mid])
      invariant go ==> lo < higuy <= mid && cmp(v[higuy], v[mid]) == 0
      decreases higuy, go
    {
      higuy := higuy - 1;
      go := higuy > lo;
      if go {
        var c := CompareElems(cmp, a, n, higuy, mid, sz);
        go := c == 0;
      }
    }
  }

  lemma SplitSwap(cmp: Comparator, v: seq<Element>, sz: nat, lo: nat, hi: nat, mid: nat, loguy: nat, higuy: nat)
    requires AllWidth(v, sz) && TotalPreorder(cmp, sz)
    requires hi < |v| && lo < mid <= higuy < hi && lo < loguy <= higuy
    requires AtMost(cmp, v, lo, loguy, v[mid])
    requires cmp(v[loguy], v[mid]) > 0 && cmp(v[higuy], v[mid]) <= 0
    requires Above(cmp, v, higuy + 1, hi, v[mid])
    requires cmp(v[mid], v[hi]) <= 0
    ensures Split(cmp, Swapped(v, loguy, higuy), lo, hi, if mid == higuy then loguy else mid, loguy, higuy, v[mid])
  {
    var w := Swapped(v, loguy, higuy);
    assert Mirrored(cmp, v[mid], v[mid]);
    assert loguy != mid && loguy < higuy;
    assert w[loguy] == v[higuy] && w[higuy] == v[loguy];
  }

  /** One exchange of the partition loop, following the pivot if it moved. */
  method Exchange(a: array<byte>, n: nat, sz: nat, cmp: Comparator, ghost v0: seq<Element>, lo: nat, hi: nat, mid: nat,
                  loguy: nat, higuy: nat)
    returns (mid': nat)
    requires a.Length == n * sz && TotalPreorder(cmp, sz)
    requires RangePerm(v0, View(a[..], n, sz), lo, hi)
    requires lo < mid <= higuy < hi < n && lo < loguy <= higuy
    requires var v := View(a[..], n, sz);
      && AtMost(cmp, v, lo, loguy, v[mid]) && cmp(v[loguy], v[mid]) > 0
      && Above(cmp, v, higuy + 1, hi, v[mid]) && cmp(v[higuy], v[mid]) <= 0
      && cmp(v[mid], v[hi]) <= 0
    modifies a
    ensures RangePerm(v0, View(a[..], n, sz), lo, hi)
    ensures Split(cmp, View(a[..], n, sz), lo, hi, mid', loguy, higuy, old(View(a[..], n, sz))[mid])
  {
    ghost var v := View(a[..], n, sz);
    SwapElems(a, n, loguy, higuy, sz);
    RangePermSwap(v0, v, lo, hi, loguy, higuy);
    SplitSwap(cmp, v, sz, lo, hi, mid, loguy, higuy);
    mid' := if mid == higuy then loguy else mid;
  }

  /** The partition loop itself. */
  method PartitionLoop(a: array<byte>, n: nat, sz: nat, cmp: Comparator, lo: nat, hi: nat, start: nat)
    returns (mid: nat, loguy: nat, higuy: nat)
    requires a.Length == n * sz && lo < start < hi < n && TotalPreorder(cmp, sz)
    requires var v := View(a[..], n, sz); cmp(v[lo], v[start]) <= 0 && cmp(v[start], v[hi]) <= 0
    modifies a
    ensures RangePerm(old(View(a[..], n, sz)), View(a[..], n, sz), lo, hi)
    ensures lo < mid <= higuy < hi && higuy < loguy <= hi + 1
    ensures var w := View(a[..], n, sz);
      && AtMost(cmp, w, lo, loguy, w[mid]) && Above(cmp, w, higuy + 1, hi, w[mid]) && cmp(w[mid], w[hi]) <= 0
  {
    ghost var v0 := View(a[..], n, sz);
    ghost var pivot := v0[start];
    mid, loguy, higuy := start, lo, hi;
    var go := true;
    while go
      invariant RangePerm(v0, View(a[..], n, sz), lo, hi)
      invariant go ==> Split(cmp, View(a[..], n, sz), lo, hi, mid, loguy, higuy, pivot)
      invariant !go ==> lo < mid <= higuy < hi && higuy < loguy <= hi + 1
      invariant !go ==> var w := View(a[..], n, sz);
        AtMost(cmp, w, lo, loguy, w[mid]) && Above(cmp, w, higuy + 1, hi, w[mid]) && cmp(w[mid], w[hi]) <= 0
      decreases go, higuy
    {
      loguy := ScanUp(a, n, sz, cmp, lo, hi, mid, loguy);
      higuy := ScanDown(a, n, sz, cmp, hi, mid, higuy);
      if higuy < loguy {
        go := false;
      } else {
        mid := Exchange(a, n, sz, cmp, v0, lo, hi, mid, loguy, higuy);
      }
    }
  }

  /** Everything between the median of three and the choice of the next range. */
  method Partition(a: array<byte>, n: nat, sz: nat, cmp: Comparator, lo: nat, hi: nat)
    returns (loguy: nat, higuy: nat)
    requires a.Length == n * sz && lo + CUTOFF <= hi < n && TotalPreorder(cmp, sz)
    modifies a
    ensures RangePerm(old(View(a[..], n, sz)), View(a[..], n, sz), lo, hi)
    ensures lo <= higuy < hi && higuy < loguy && lo < loguy <= hi + 1
    ensures InOrderBut(cmp, View(a[..], n, sz), lo, hi, [(lo, higuy), (loguy, hi)])
  {
    var size := hi - lo + 1;
    var mid := lo + size / 2;
    MedianOfThree(a, n, sz, cmp, lo, mid, hi);
    mid, loguy, higuy := PartitionLoop(a, n, sz, cmp, lo, hi, mid);
    ghost var top := higuy;
    higuy := SkipEqual(a, n, sz, cmp, lo, mid, higuy);
    PartitionOrder(cmp, View(a[..], n, sz), sz, lo, hi, mid, loguy, higuy, top);
  }

  lemma PartitionOrder(cmp: Comparator, w: seq<Element>, sz: nat, lo: nat, hi: nat, mid: nat, loguy: nat, higuy: nat,
                       top: nat)
    requires AllWidth(w, sz) && TotalPreorder(cmp, sz)
    requires hi < |w| && lo < mid < hi && lo <= higuy <= top < hi && top < loguy <= hi + 1
    requires AtMost(cmp, w, lo, loguy, w[mid])
    requires Above(cmp, w, top + 1, hi, w[mid])
    requires cmp(w[mid], w[hi]) <= 0
    requires Equal(cmp, w, higuy + 1, top + 1, w[mid])
    ensures InOrderBut(cmp, w, lo, hi, [(lo, higuy), (loguy, hi)])
  {
    var cut := [(lo, higuy), (loguy, hi)];
    forall i, j | lo <= i < j <= hi
      ensures cmp(w[i], w[j]) <= 0 || Together(cut, i, j)
    {
      if j <= higuy {
        assert cut[0].0 <= i && j <= cut[0].1;
      } else if loguy <= i {
        assert cut[1].0 <= i && j <= cut[1].1;
      } else {
        assert Mirrored(cmp, w[mid], w[j]);
        assert Chained(cmp, w[i], w[mid], w[j]);
      }
    }
  }

  // ------------------------------------------------------------------------
  // The explicit stack
  // ------------------------------------------------------------------------

  /** size doubled k times. */
  ghost function Scaled(size: nat, k: nat): nat {
    if k == 0 then size else 2 * Scaled(size, k - 1)
  }

  lemma {:induction false} ScaledMonotone(part: nat, whole: nat, k: nat)
    requires part <= whole
    ensures Scaled(part, k) <= Scaled(whole, k)
  {
    if k > 0 { ScaledMonotone(part, whole, k - 1); }
  }

  lemma {:induction false} ScaledDouble(part: nat, k: nat)
    ensures Scaled(part, k + 1) == Scaled(2 * part, k)
  {
    if k > 0 { ScaledDouble(part, k - 1); }
  }

  lemma {:induction false} ScaledGrows(size: nat, k: nat, m: nat)
    requires k <= m
    ensures Scaled(size, k) <= Scaled(size, m)
    decreases m - k
  {
    if k < m { ScaledGrows(size, k, m - 1); }
  }

  lemma ScaledBy16(size: nat, k: nat)
    ensures Scaled(size, k + 4) == 16 * Scaled(size, k)
  {
    assert Scaled(size, k + 4) == 2 * Scaled(size, k + 3);
    assert Scaled(size, k + 2) == 2 * Scaled(size, k + 1);
  }

  /** Eight elements doubled 61 times are all that size_t can count. */
  lemma EightScaled61()
    ensures Scaled(8, 61) == U64
  {
    assert Scaled(8, 1) == 16;
    ScaledBy16(8, 1); ScaledBy16(8, 5); ScaledBy16(8, 9); ScaledBy16(8, 13); ScaledBy16(8, 17);
    ScaledBy16(8, 21); ScaledBy16(8, 25); ScaledBy16(8, 29); ScaledBy16(8, 33); ScaledBy16(8, 37);
    ScaledBy16(8, 41); ScaledBy16(8, 45); ScaledBy16(8, 49); ScaledBy16(8, 53); ScaledBy16(8, 57);
  }

  ghost function Size(r: Range): int { r.1 - r.0 + 1 }

  ghost predicate Shrunk(r: Range, k: nat, n: nat) { r.0 <= r.1 && Scaled(Size(r), k) <= n }

  /** The range at depth k, doubled k times, is no longer than the whole array. */
  ghost predicate Halving(rs: seq<Range>, n: nat)
    requires Ranges(rs, n)
  {
    forall k :: 0 <= k < |rs| ==> Shrunk(rs[k], k, n)
  }

  /** A range of more than CUTOFF elements is only ever current with at most 60 entries stacked. */
  lemma StackRoom(r: Range, k: nat, n: nat)
    requires Size(r) > CUTOFF && Shrunk(r, k, n) && n < U64
    ensures k <= 60
  {
    var size := Size(r);
    if k >= 61 {
      EightScaled61();
      ScaledGrows(8, 61, k);
      ScaledMonotone(8, size, k);
    }
  }

  ghost function Work(rs: seq<Range>): int {
    if rs == [] then 0 else Work(rs[..|rs| - 1]) + 2 * Size(rs[|rs| - 1]) - 1
  }

  lemma WorkPush(rs: seq<Range>, r: Range)
    ensures Work(rs + [r]) == Work(rs) + 2 * Size(r) - 1
  {
    assert (rs + [r])[..|rs|] == rs;
  }

  lemma {:induction false} WorkPositive(rs: seq<Range>, n: nat)
    requires Ranges(rs, n)
    ensures Work(rs) >= |rs|
  {
    if rs != [] { WorkPositive(rs[..|rs| - 1], n); }
  }

  ghost predicate Stacked(lostk: seq<nat>, histk: seq<nat>, rs: seq<Range>) {
    && |lostk| == |histk| == STKSIZ && |rs| <= STKSIZ
    && forall k :: 0 <= k < |rs| ==> lostk[k] == rs[k].0 && histk[k] == rs[k].1
  }

  /** The facts that carry from one pending range to the ranges cut out of it. */
  lemma CutRanges(rs: seq<Range>, n: nat, lo: nat, hi: nat, push: Range, next: Range)
    requires Ranges(rs + [(lo, hi)], n) && Halving(rs + [(lo, hi)], n)
    requires lo <= push.0 <= push.1 <= hi && lo <= next.0 <= next.1 <= hi && Apart(push, next)
    requires 2 * Size(next) <= Size((lo, hi))
    ensures Ranges(rs + [push] + [next], n) && Halving(rs + [push] + [next], n)
    ensures Work(rs + [push] + [next]) < Work(rs + [(lo, hi)])
  {
    hide Ranges, Halving, Work, Scaled;
    CutRange(rs, n, lo, hi, push);
    CutRange(rs, n, lo, hi, next);
    CutWork(rs, lo, hi, push, next);
    CutApart(rs, n, lo, hi, push, next);
    CutHalves(rs, n, lo, hi, push, next);
  }

  lemma CutWork(rs: seq<Range>, lo: nat, hi: nat, push: Range, next: Range)
    requires lo <= push.0 <= push.1 <= hi && lo <= next.0 <= next.1 <= hi && Apart(push, next)
    ensures Work(rs + [push] + [next]) < Work(rs + [(lo, hi)])
  {
    hide Work;
    WorkPush(rs, push);
    WorkPush(rs + [push], next);
    WorkPush(rs, (lo, hi));
    assert Size(push) + Size(next) <= Size((lo, hi));
  }

  lemma CutApart(rs: seq<Range>, n: nat, lo: nat, hi: nat, push: Range, next: Range)
    requires Ranges(rs + [push], n) && Ranges(rs + [next], n) && Apart(push, next)
    ensures Ranges(rs + [push] + [next], n)
  {
    var all, a, b := rs + [push] + [next], rs + [push], rs + [next];
    hide Apart;
    forall i, j | 0 <= i < j < |all| ensures Apart(all[i], all[j]) {
      if j < |a| { assert all[i] == a[i] && all[j] == a[j]; }
      else if i < |rs| { assert all[i] == b[i] && all[j] == b[|rs|]; }
    }
    assert forall i :: 0 <= i < |a| ==> all[i] == a[i];
    assert b[|rs|] == next;
  }

  lemma CutHalves(rs: seq<Range>, n: nat, lo: nat, hi: nat, push: Range, next: Range)
    requires Ranges(rs + [push] + [next], n) && Ranges(rs + [push], n) && Halving(rs + [push], n)
    requires Ranges(rs + [(lo, hi)], n) && Halving(rs + [(lo, hi)], n)
    requires lo <= next.0 <= next.1 <= hi && 2 * Size(next) <= Size((lo, hi))
    ensures Halving(rs + [push] + [next], n)
  {
    var all, a, whole := rs + [push] + [next], rs + [push], rs + [(lo, hi)];
    hide Ranges, Scaled, Apart;
    assert Shrunk(whole[|rs|], |rs|, n) && whole[|rs|] == (lo, hi);
    ScaledDouble(Size(next), |rs|);
    ScaledMonotone(2 * Size(next), Size((lo, hi)), |rs|);
    forall k | 0 <= k < |all| ensures Shrunk(all[k], k, n) {
      if k < |a| { assert all[k] == a[k] && Shrunk(a[k], k, n); }
    }
  }

  lemma CutRange(rs: seq<Range>, n: nat, lo: nat, hi: nat, next: Range)
    requires Ranges(rs + [(lo, hi)], n) && Halving(rs + [(lo, hi)], n)
    requires lo <= next.0 <= next.1 <= hi
    ensures Ranges(rs + [next], n) && Halving(rs + [next], n)
    ensures next != (lo, hi) ==> Work(rs + [next]) < Work(rs + [(lo, hi)])
  {
    var all, old' := rs + [next], rs + [(lo, hi)];
    assert old'[|rs|] == (lo, hi);
    forall k | 0 <= k < |rs|
      ensures Apart(all[k], next) && all[k] == old'[k]
    {
      assert Apart(old'[k], old'[|rs|]);
    }
    ScaledMonotone(Size(next), Size((lo, hi)), |rs|);
    WorkPush(rs, next);
    WorkPush(rs, (lo, hi));
  }

  lemma DropRange(rs: seq<Range>, n: nat, r: Range)
    requires Ranges(rs + [r], n) && Halving(rs + [r], n)
    ensures Ranges(rs, n) && Halving(rs, n)
    ensures Work(rs) < Work(rs + [r])
  {
    assert forall k :: 0 <= k < |rs| ==> (rs + [r])[k] == rs[k];
    assert (rs + [r])[|rs|] == r;
    WorkPush(rs, r);
  }

  ghost function Left(lo: nat, higuy: nat): seq<Range> { if lo < higuy then [(lo, higuy)] else [] }

  ghost function Right(loguy: nat, hi: nat): seq<Range> { if loguy < hi then [(loguy, hi)] else [] }

  lemma CutCovers(lo: nat, hi: nat, higuy: nat, loguy: nat, cut: seq<Range>)
    requires lo < higuy ==> (lo, higuy) in cut
    requires loguy < hi ==> (loguy, hi) in cut
    ensures forall i: nat, j: nat :: i < j && Together([(lo, higuy), (loguy, hi)], i, j) ==> Together(cut, i, j)
  {
  }

  /** Which part is pushed and which is taken next. */
  ghost predicate IsCut(lo: nat, hi: nat, loguy: nat, higuy: nat, push: seq<Range>, next: seq<Range>) {
    && lo <= higuy < hi && higuy < loguy && lo < loguy <= hi + 1
    && (|| (push == Left(lo, higuy) && next == Right(loguy, hi) && higuy - lo >= hi - loguy)
        || (push == Right(loguy, hi) && next == Left(lo, higuy) && (higuy - lo <= hi - loguy || loguy > hi)))
  }

  lemma CutOrdered(cmp: Comparator, v: seq<Element>, w: seq<Element>, pend: seq<Range>, lo: nat, hi: nat, loguy: nat,
                   higuy: nat, push: seq<Range>, next: seq<Range>)
    requires Ordered(cmp, v, pend + [(lo, hi)]) && Ranges(pend + [(lo, hi)], |v|)
    requires RangePerm(v, w, lo, hi) && InOrderBut(cmp, w, lo, hi, [(lo, higuy), (loguy, hi)])
    requires IsCut(lo, hi, loguy, higuy, push, next)
    ensures Ordered(cmp, w, pend + push + next)
  {
    CutCovers(lo, hi, higuy, loguy, push + next);
    Refine(cmp, v, w, pend, lo, hi, push + next);
    assert pend + (push + next) == pend + push + next;
  }

  lemma CutSizes(n: nat, pend: seq<Range>, lo: nat, hi: nat, loguy: nat, higuy: nat, push: seq<Range>, next: seq<Range>)
    requires Ranges(pend + [(lo, hi)], n) && Halving(pend + [(lo, hi)], n)
    requires IsCut(lo, hi, loguy, higuy, push, next)
    ensures Ranges(pend + push + next, n) && Halving(pend + push + next, n)
    ensures Work(pend + push + next) < Work(pend + [(lo, hi)])
  {
    if push == [] && next == [] {
      assert pend + push + next == pend;
      DropRange(pend, n, (lo, hi));
    } else if push == [] {
      assert pend + push + next == pend + [next[0]];
      CutRange(pend, n, lo, hi, next[0]);
    } else if next == [] {
      assert pend + push + next == pend + [push[0]];
      CutRange(pend, n, lo, hi, push[0]);
    } else {
      assert push == [push[0]] && next == [next[0]];
      CutRanges(pend, n, lo, hi, push[0], next[0]);
    }
  }

  /** Between two ranges: the pending ranges are on the stack, and one of them is current. */
  ghost predicate State(cmp: Comparator, v: seq<Element>, n: nat, todo: seq<Range>) {
    |v| == n && Ordered(cmp, v, todo) && Ranges(todo, n) && Halving(todo, n)
  }

  // ------------------------------------------------------------------------
  // msvcrt_qsort
  // ------------------------------------------------------------------------

  datatype Cut = Cut(push: Option<Range>, next: Option<Range>)

  ghost function Listed(r: Option<Range>): seq<Range> {
    match r case None => [] case Some(x) => [x]
  }

  /** A range above CUTOFF: partition it and say which part to push and which to take next.
      hi - loguy is unsigned in the source and wraps when loguy is one past hi. */
  method SplitRange(a: array<byte>, n: nat, sz: nat, cmp: Comparator, lo: nat, hi: nat, ghost pend: seq<Range>)
    returns (cut: Cut)
    requires a.Length == n * sz && n < U64 && TotalPreorder(cmp, sz)
    requires State(cmp, View(a[..], n, sz), n, pend + [(lo, hi)])
    requires lo + CUTOFF <= hi < n
    modifies a
    ensures multiset(View(a[..], n, sz)) == multiset(old(View(a[..], n, sz)))
    ensures State(cmp, View(a[..], n, sz), n, pend + Listed(cut.push) + Listed(cut.next))
    ensures Work(pend + Listed(cut.push) + Listed(cut.next)) < Work(pend + [(lo, hi)])
  {
    hide View, RangePerm, InOrderBut, Ordered, Ranges, Halving, Work, TotalPreorder;
    ghost var v := View(a[..], n, sz);
    var loguy, higuy := Partition(a, n, sz, cmp, lo, hi);
    ghost var w := View(a[..], n, sz);
    cut := ChooseCut(n, lo, hi, loguy, higuy);
    RangePermKeeps(v, w, lo, hi);
    CutOrdered(cmp, v, w, pend, lo, hi, loguy, higuy, Listed(cut.push), Listed(cut.next));
    CutSizes(n, pend, lo, hi, loguy, higuy, Listed(cut.push), Listed(cut.next));
  }

  /** The larger part is pushed, by the unsigned comparison as written. */
  method ChooseCut(n: nat, lo: nat, hi: nat, loguy: nat, higuy: nat) returns (cut: Cut)
    requires n < U64 && hi < n && lo <= higuy < hi && higuy < loguy && lo < loguy <= hi + 1
    ensures IsCut(lo, hi, loguy, higuy, Listed(cut.push), Listed(cut.next))
  {
    var left := if lo < higuy then Some((lo, higuy)) else None;
    var right := if loguy < hi then Some((loguy, hi)) else None;
    cut := if higuy - lo >= (hi - loguy) % U64 then Cut(left, right) else Cut(right, left);
  }

  lemma RangePermKeeps(v: seq<Element>, w: seq<Element>, lo: nat, hi: nat)
    requires RangePerm(v, w, lo, hi)
    ensures |v| == |w| && multiset(v) == multiset(w)
  {
  }

  /** Selection sort finishes its range. */
  method FinishRange(a: array<byte>, n: nat, sz: nat, cmp: Comparator, lo: nat, hi: nat, ghost pend: seq<Range>)
    requires a.Length == n * sz && TotalPreorder(cmp, sz) && lo <= hi < n
    requires State(cmp, View(a[..], n, sz), n, pend + [(lo, hi)])
    modifies a
    ensures multiset(View(a[..], n, sz)) == multiset(old(View(a[..], n, sz)))
    ensures State(cmp, View(a[..], n, sz), n, pend) && Work(pend) < Work(pend + [(lo, hi)])
  {
    ghost var v := View(a[..], n, sz);
    SelectionSort(a, n, sz, cmp, lo, hi);
    Refine(cmp, v, View(a[..], n, sz), pend, lo, hi, []);
    DropRange(pend, n, (lo, hi));
    assert pend + [] == pend;
  }

  method Push(lostk: array<nat>, histk: array<nat>, stkptr: nat, r: Range, ghost pend: seq<Range>)
    requires lostk != histk && Stacked(lostk[..], histk[..], pend) && stkptr == |pend| < STKSIZ
    modifies lostk, histk
    ensures Stacked(lostk[..], histk[..], pend + [r])
  {
    lostk[stkptr] := r.0;
    histk[stkptr] := r.1;
  }

  method Pop(lostk: array<nat>, histk: array<nat>, stkptr: nat, ghost pend: seq<Range>)
    returns (lo: nat, hi: nat)
    requires Stacked(lostk[..], histk[..], pend) && stkptr == |pend| - 1
    ensures pend == pend[..stkptr] + [(lo, hi)]
    ensures Stacked(lostk[..], histk[..], pend[..stkptr])
  {
    lo, hi := lostk[stkptr], histk[stkptr];
    assert lostk[..][stkptr] == pend[stkptr].0 && histk[..][stkptr] == pend[stkptr].1;
  }

  /** Taking the next range off the stack, if any is left. */
  method TakeNext(lostk: array<nat>, histk: array<nat>, sp: nat, ghost todo: seq<Range>)
    returns (stkptr: int, lo: nat, hi: nat, running: bool)
    requires sp == |todo| && Stacked(lostk[..], histk[..], todo)
    ensures running <==> todo != []
    ensures running ==> 0 <= stkptr < |todo| && todo[..stkptr] + [(lo, hi)] == todo
    ensures running ==> Stacked(lostk[..], histk[..], todo[..stkptr])
  {
    lo, hi := 0, 0;
    stkptr := sp - 1;
    running := stkptr >= 0;
    if running { lo, hi := Pop(lostk, histk, stkptr, todo); }
  }

  /** One trip through the recurse label: finish or split the current range, then pick the next.
      The stack accesses are in bounds by CurrentRange. */
  method NextRange(a: array<byte>, n: nat, sz: nat, cmp: Comparator, lostk: array<nat>, histk: array<nat>, sp: nat,
                   from: nat, to: nat, ghost before: seq<Range>)
    returns (stkptr: int, lo: nat, hi: nat, running: bool, ghost pend: seq<Range>)
    requires a.Length == n * sz && n < U64 && TotalPreorder(cmp, sz)
    requires lostk != histk && a as object != lostk as object && a as object != histk as object
    requires State(cmp, View(a[..], n, sz), n, before + [(from, to)])
    requires sp == |before| && Stacked(lostk[..], histk[..], before)
    modifies a, lostk, histk
    ensures multiset(View(a[..], n, sz)) == multiset(old(View(a[..], n, sz)))
    ensures running ==> stkptr == |pend| && Stacked(lostk[..], histk[..], pend)
    ensures State(cmp, View(a[..], n, sz), n, if running then pend + [(lo, hi)] else [])
    ensures running ==> Work(pend + [(lo, hi)]) < Work(before + [(from, to)])
  {
    hide Ordered, Ranges, Halving, Work, View;
    CurrentRange(n, before, from, to);
    var top := sp;
    pend := before;
    if to - from + 1 <= CUTOFF {
      FinishRange(a, n, sz, cmp, from, to, before);
    } else {
      var cut := SplitRange(a, n, sz, cmp, from, to, before);
      if cut.push.Some? {
        Push(lostk, histk, sp, cut.push.value, before);
        top := sp + 1;
      }
      pend := before + Listed(cut.push);
      if cut.next.Some? {
        stkptr, lo, hi, running := top, cut.next.value.0, cut.next.value.1, true;
        return;
      }
      assert pend + [] == pend;
    }
    stkptr, lo, hi, running := TakeNext(lostk, histk, top, pend);
    if running { pend := pend[..stkptr]; }
  }

  /** The whole sort. The array accesses to the two 62-entry stacks and to the element buffer are
      proved in bounds, no index leaves the naturals, and the loop terminates. */
  method Sort(a: array<byte>, n: nat, sz: nat, callback: Option<Comparator>)
    requires a.Length == n * sz && n < U64
    requires callback.Some? ==> TotalPreorder(callback.value, sz)
    modifies a
    ensures callback.Some? && sz > 0 ==> Sorted(callback.value, View(a[..], n, sz))
    ensures multiset(View(a[..], n, sz)) == multiset(old(View(a[..], n, sz)))
    ensures n <= 1 || sz == 0 || callback.None? ==> a[..] == old(a[..])
  {
    if n <= 1 || sz == 0 || callback.None? { return; }
    SortRanges(a, n, sz, callback.value);
  }

  /** The loop through `recurse`. */
  method SortRanges(a: array<byte>, n: nat, sz: nat, cmp: Comparator)
    requires a.Length == n * sz && 0 < n < U64 && TotalPreorder(cmp, sz)
    modifies a
    ensures Sorted(cmp, View(a[..], n, sz))
    ensures multiset(View(a[..], n, sz)) == multiset(old(View(a[..], n, sz)))
  {
    hide View, Ordered, Ranges, Halving, Work, TotalPreorder, Stacked, Sorted;
    var lostk := new nat[STKSIZ];
    var histk := new nat[STKSIZ];
    var stkptr: int := 0;
    var lo: nat, hi: nat := 0, n - 1;
    ghost var pend: seq<Range> := [];
    var running := true;
    StartState(cmp, View(a[..], n, sz), n);
    EmptyStack(lostk[..], histk[..]);
    while running
      invariant multiset(View(a[..], n, sz)) == multiset(old(View(a[..], n, sz)))
      invariant running ==> stkptr == |pend| && Stacked(lostk[..], histk[..], pend)
      invariant State(cmp, View(a[..], n, sz), n, if running then pend + [(lo, hi)] else [])
      decreases running, if running then Work(pend + [(lo, hi)]) else 0
    {
      WorkPositive(pend + [(lo, hi)], n);
      stkptr, lo, hi, running, pend := NextRange(a, n, sz, cmp, lostk, histk, stkptr, lo, hi, pend);
    }
    NothingPending(cmp, View(a[..], n, sz));
  }

  lemma EmptyStack(lostk: seq<nat>, histk: seq<nat>)
    requires |lostk| == |histk| == STKSIZ
    ensures Stacked(lostk, histk, [])
  {
  }

  lemma NothingPending(cmp: Comparator, v: seq<Element>)
    requires Ordered(cmp, v, [])
    ensures Sorted(cmp, v)
  {
    forall i, j | 0 <= i < j < |v|
      ensures cmp(v[i], v[j]) <= 0
    {
      assert !Together([], i, j);
    }
  }

  /** The current range is a real one, and a range above CUTOFF leaves room on the stack. */
  lemma CurrentRange(n: nat, pend: seq<Range>, lo: nat, hi: nat)
    requires Ranges(pend + [(lo, hi)], n) && Halving(pend + [(lo, hi)], n) && n < U64
    ensures lo <= hi < n && Work(pend + [(lo, hi)]) > 0
    ensures hi - lo + 1 > CUTOFF ==> |pend| <= 60
  {
    hide Work, Shrunk, Apart;
    var todo := pend + [(lo, hi)];
    WorkPositive(todo, n);
    assert todo[|pend|] == (lo, hi);
    if hi - lo + 1 > CUTOFF { StackRoom(todo[|pend|], |pend|, n); }
  }

  lemma StartState(cmp: Comparator, v: seq<Element>, n: nat)
    requires |v| == n > 0
    ensures State(cmp, v, n, [] + [(0, n - 1)])
  {
    var todo: seq<Range> := [] + [(0, n - 1)];
    assert todo[0] == (0, n - 1) && |todo| == 1;
    assert forall i: nat, j: nat :: j < n ==> Together(todo, i, j);
  }
}
