/**
 * The bubble sort behind `sort_ranges` and `sort_base_ranges`
 * (kexec-ppc.c:134-175): both walk the first `n` entries of a range buffer
 * and swap the `start` and `end` of neighbours whose starts are out of
 * order, leaving each entry's `type` where it was.
 */
module Sorting {
  import opened Ranges

  /** Swapping two neighbouring pairs keeps the same pairs. */
  lemma SwapKeepsMultiset(s: seq<Span>, j: nat)
    requires j + 1 < |s|
    ensures multiset(s[j := s[j + 1]][j + 1 := s[j]]) == multiset(s)
  {
    var t := s[j := s[j + 1]][j + 1 := s[j]];
    assert s == s[..j] + [s[j], s[j + 1]] + s[j + 2..];
    assert t == s[..j] + [s[j + 1], s[j]] + s[j + 2..];
  }

  /** Exchanges the (start, end) pairs of entries `j` and `j + 1`, leaving their types. */
  method SwapPairs(a: array<MemoryRange>, j: int, n: int)
    requires 0 <= j && j + 1 < n <= a.Length
    modifies a
    ensures a[j] == old(a[j]).(start := old(a[j + 1].start), end := old(a[j + 1].end))
    ensures a[j + 1] == old(a[j + 1]).(start := old(a[j].start), end := old(a[j].end))
    ensures forall k :: 0 <= k < a.Length && k != j && k != j + 1 ==> a[k] == old(a[k])
    ensures multiset(Spans(a[..n])) == multiset(Spans(old(a[..n])))
  {
    ghost var before := Spans(a[..n]);
    var lo, hi := a[j], a[j + 1];
    a[j] := lo.(start := hi.start, end := hi.end);
    a[j + 1] := hi.(start := lo.start, end := lo.end);
    assert Spans(a[..n]) == before[j := before[j + 1]][j + 1 := before[j]];
    SwapKeepsMultiset(before, j);
  }

  /**
   * One pass of the inner loop over `a[..m]`: the greatest start among the
   * first `m` entries ends up at `m - 1`; nothing from `m` on moves.
   */
  method BubblePass(a: array<MemoryRange>, m: int, n: int)
    requires 1 <= m <= n <= a.Length
    requires forall p, q :: 0 <= p < m <= q < n ==> a[p].start <= a[q].start
    modifies a
    ensures forall p :: 0 <= p < m ==> a[p].start <= a[m - 1].start
    ensures forall p, q :: 0 <= p < m <= q < n ==> a[p].start <= a[q].start
    ensures forall k :: m <= k < a.Length ==> a[k] == old(a[k])
    ensures forall k :: 0 <= k < a.Length ==> a[k].rtype == old(a[k].rtype)
    ensures multiset(Spans(a[..n])) == multiset(Spans(old(a[..n])))
  {
    var j := 0;
    while j < m - 1
      invariant 0 <= j <= m - 1
      invariant forall p :: 0 <= p <= j ==> a[p].start <= a[j].start
      invariant forall k :: m <= k < a.Length ==> a[k] == old(a[k])
      invariant forall k :: 0 <= k < a.Length ==> a[k].rtype == old(a[k].rtype)
      invariant forall p, q :: 0 <= p < m <= q < n ==> a[p].start <= a[q].start
      invariant multiset(Spans(a[..n])) == multiset(Spans(old(a[..n])))
    {
      if a[j].start > a[j + 1].start {
        SwapPairs(a, j, n);
      }
      j := j + 1;
    }
  }

  /**
   * Sorts `a[..n]` ascending by start, moving (start, end) pairs only: the
   * pairs are permuted, every entry keeps its type, and the entries from
   * `n` on are untouched.
   */
  method BubbleSortByStart(a: array<MemoryRange>, n: int)
    requires 0 <= n <= a.Length
    modifies a
    ensures IsSortedPermutation(Spans(a[..n]), Spans(old(a[..n])))
    ensures a[n..] == old(a[n..])
    ensures forall k :: 0 <= k < a.Length ==> a[k].rtype == old(a[k].rtype)
  {
    var i := 0;
    while i < n - 1
      invariant 0 <= i <= n && (n >= 1 ==> i <= n - 1)
      invariant forall p, q :: n - i <= p < q < n ==> a[p].start <= a[q].start
      invariant forall p, q :: 0 <= p < n - i <= q < n ==> a[p].start <= a[q].start
      invariant multiset(Spans(a[..n])) == multiset(Spans(old(a[..n])))
      invariant forall k :: n <= k < a.Length ==> a[k] == old(a[k])
      invariant forall k :: 0 <= k < a.Length ==> a[k].rtype == old(a[k].rtype)
    {
      BubblePass(a, n - i, n);
      i := i + 1;
    }
    assert a[n..] == old(a[n..]);
    forall p, q | 0 <= p < q < n
      ensures Spans(a[..n])[p].start <= Spans(a[..n])[q].start
    {
    }
  }
}
