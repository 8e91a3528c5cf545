/**
 * The `struct memory_range` entries that the planner keeps in its three
 * buffers (base RAM, exclusions, usable output), and the order they are
 * sorted into.
 */
module Ranges {
  import opened ByteOrder

  /**
   * The `type` member of a range. The planner only ever writes `RANGE_RAM`;
   * `RangeUnset` stands for whatever a zero-filled entry holds (the numeric
   * value of `RANGE_RAM` is fixed in kexec.h, which is not part of this model).
   */
  datatype RangeType = RangeRam | RangeUnset

  /** One entry: an inclusive address range `[start, end]` and its type. */
  datatype MemoryRange = MemoryRange(start: u64, end: u64, rtype: RangeType)

  /** The `(start, end)` pair of an entry: what the sorts move and the synthesizer reads. */
  datatype Span = Span(start: u64, end: u64)

  datatype Option<T> = None | Some(value: T)

  /** The entry every buffer is filled with when it is allocated. */
  const ZeroRange: MemoryRange := MemoryRange(0, 0, RangeUnset)

  function SpanOf(r: MemoryRange): Span {
    Span(r.start, r.end)
  }

  function Spans(s: seq<MemoryRange>): seq<Span> {
    seq(|s|, k requires 0 <= k < |s| => SpanOf(s[k]))
  }

  /** A usable RAM range, as `setup_memory_ranges` writes them. */
  function Ram(start: u64, end: u64): MemoryRange {
    MemoryRange(start, end, RangeRam)
  }

  /** Ascending by start address: what both bubble sorts establish. */
  ghost predicate SortedByStart(s: seq<Span>) {
    forall p, q :: 0 <= p < q < |s| ==> s[p].start <= s[q].start
  }

  /** `s` holds the same `(start, end)` pairs as `t`, in ascending start order. */
  ghost predicate IsSortedPermutation(s: seq<Span>, t: seq<Span>) {
    SortedByStart(s) && multiset(s) == multiset(t)
  }
}
