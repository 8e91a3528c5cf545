/**
 * What `setup_memory_ranges` emits from the sorted exclusion list: the
 * leading gap, the gaps between non-contiguous exclusions, the trailing gap
 * up to `memory_max`, the clip-and-stop rule at `rmo_top`, and the
 * single-range fallback when nothing was emitted. The loop itself is
 * `Planner.RangePlanner.SetupMemoryRanges`; these functions are its
 * specification, and the lemmas below say what the output means.
 */
module Synthesis {
  import opened ByteOrder
  import opened Ranges

  /** `x + 1` on a `uint64_t`. */
  function Inc64(x: u64): u64 { Wrap64(x + 1) }

  /** `x - 1` on a `uint64_t`. */
  function Dec64(x: u64): u64 { Wrap64(x - 1) }

  /**
   * The hole below the first exclusion, emitted when that exclusion does
   * not start at 0 (kexec-ppc.c:633-639). It is not clipped at `rmo_top`.
   */
  function LeadingGap(ex: seq<Span>): seq<MemoryRange> {
    if |ex| > 0 && ex[0].start != 0 then [Ram(0, ex[0].start - 1)] else []
  }

  /**
   * The candidate gap iteration `i` considers after exclusion `i`: for the
   * last exclusion the trailing gap up to `memory_max` when it ends below
   * it (kexec-ppc.c:645-650), otherwise the hole before exclusion `i + 1`
   * unless the two are contiguous (kexec-ppc.c:665-669). For the last
   * exclusion ending at or above `memory_max` there is none: the source
   * would read the entry one past the list there, which this model does not.
   */
  function GapAfter(ex: seq<Span>, i: nat, memoryMax: u64): Option<Span>
    requires i < |ex|
  {
    if i == |ex| - 1 then
      if ex[i].end < memoryMax then Some(Span(ex[i].end + 1, memoryMax)) else None
    else if ex[i + 1].start == Inc64(ex[i].end) then None
    else Some(Span(Inc64(ex[i].end), Dec64(ex[i + 1].start)))
  }

  /**
   * The ranges iterations `i..` emit: a candidate at or above `rmo_top` is
   * dropped and ends the loop, one that straddles it is cut to end at
   * `rmo_top` and ends the loop (kexec-ppc.c:651-661, 671-680).
   */
  function EmitFrom(ex: seq<Span>, i: nat, memoryMax: u64, rmoTop: u64): seq<MemoryRange>
    requires i <= |ex|
    decreases |ex| - i
  {
    if i == |ex| then []
    else match GapAfter(ex, i, memoryMax)
      case None => EmitFrom(ex, i + 1, memoryMax, rmoTop)
      case Some(g) =>
        if g.start >= rmoTop then []
        else if g.end >= rmoTop then [Ram(g.start, rmoTop)]
        else [Ram(g.start, g.end)] + EmitFrom(ex, i + 1, memoryMax, rmoTop)
  }

  /** Everything the loop over the exclusions emits (kexec-ppc.c:629-681). */
  function Emitted(ex: seq<Span>, memoryMax: u64, rmoTop: u64): seq<MemoryRange> {
    LeadingGap(ex) + EmitFrom(ex, 0, memoryMax, rmoTop)
  }

  /**
   * The final list: what the loop emitted, or the single range from the
   * first base range's start to `rmo_top` when it emitted nothing
   * (kexec-ppc.c:683-690).
   */
  function Synthesize(ex: seq<Span>, memoryMax: u64, rmoTop: u64, firstBase: u64): seq<MemoryRange> {
    var out := Emitted(ex, memoryMax, rmoTop);
    if out == [] then [Ram(firstBase, rmoTop)] else out
  }

  // ---------------------------------------------------------------------
  // Vocabulary for the lemmas

  /** Exclusions that are proper ranges, ascending and pairwise disjoint. */
  ghost predicate WellFormed(ex: seq<Span>) {
    && (forall k :: 0 <= k < |ex| ==> ex[k].start <= ex[k].end)
    && (forall p, q :: 0 <= p < q < |ex| ==> ex[p].end < ex[q].start)
  }

  ghost predicate Excluded(ex: seq<Span>, x: int) {
    exists k :: 0 <= k < |ex| && ex[k].start <= x <= ex[k].end
  }

  ghost predicate Covers(out: seq<MemoryRange>, x: int) {
    exists k :: 0 <= k < |out| && out[k].start <= x <= out[k].end
  }

  /** Proper ranges, ascending, with no two overlapping. */
  ghost predicate Ordered(out: seq<MemoryRange>) {
    && (forall k :: 0 <= k < |out| ==> out[k].start <= out[k].end)
    && (forall a, b :: 0 <= a < b < |out| ==> out[a].end < out[b].start)
  }

  /** `r` lies strictly after exclusion `j` and strictly before exclusion `j + 1`. */
  ghost predicate InGapAfter(ex: seq<Span>, j: int, r: MemoryRange)
    requires 0 <= j < |ex|
  {
    ex[j].end < r.start <= r.end && (j + 1 < |ex| ==> r.end < ex[j + 1].start)
  }

  // ---------------------------------------------------------------------
  // Shape of the output

  lemma {:induction false} EmitFromShape(ex: seq<Span>, i: nat, memoryMax: u64, rmoTop: u64)
    requires i <= |ex|
    ensures |EmitFrom(ex, i, memoryMax, rmoTop)| <= |ex| - i
    ensures forall r :: r in EmitFrom(ex, i, memoryMax, rmoTop) ==>
      r.rtype == RangeRam && r.start < rmoTop && r.end <= rmoTop
    decreases |ex| - i
  {
    if i < |ex| {
      EmitFromShape(ex, i + 1, memoryMax, rmoTop);
    }
  }

  /**
   * At least one and at most one more range than there are exclusions,
   * all of type RAM; everything after the leading gap starts below
   * `rmo_top` and ends at or below it.
   */
  lemma SynthesizeShape(ex: seq<Span>, memoryMax: u64, rmoTop: u64, firstBase: u64)
    ensures var out := Synthesize(ex, memoryMax, rmoTop, firstBase);
      && 1 <= |out| <= |ex| + 1
      && (forall r :: r in out ==> r.rtype == RangeRam)
      && (forall r :: r in EmitFrom(ex, 0, memoryMax, rmoTop) ==> r.start < rmoTop && r.end <= rmoTop)
  {
    EmitFromShape(ex, 0, memoryMax, rmoTop);
  }

  /** Only the last range the loop emits can reach `rmo_top`: a clipped range ends the list. */
  lemma {:induction false} OnlyLastReachesRmoTop(ex: seq<Span>, i: nat, memoryMax: u64, rmoTop: u64)
    requires i <= |ex|
    ensures forall k :: 0 <= k < |EmitFrom(ex, i, memoryMax, rmoTop)| - 1 ==>
      EmitFrom(ex, i, memoryMax, rmoTop)[k].end < rmoTop
    decreases |ex| - i
  {
    if i < |ex| {
      OnlyLastReachesRmoTop(ex, i + 1, memoryMax, rmoTop);
      var e := EmitFrom(ex, i, memoryMax, rmoTop);
      var tail := EmitFrom(ex, i + 1, memoryMax, rmoTop);
      assert forall k :: 0 <= k < |tail| - 1 ==> tail[k].end < rmoTop;
      match GapAfter(ex, i, memoryMax)
      case None =>
        assert e == tail;
        forall k | 0 <= k < |e| - 1
          ensures e[k].end < rmoTop
        {
          assert e[k] == tail[k];
        }
      case Some(g) =>
        if g.start < rmoTop && g.end < rmoTop {
          forall k | 0 <= k < |e| - 1
            ensures e[k].end < rmoTop
          {
            if k > 0 {
              assert e[k] == tail[k - 1];
            }
          }
        }
    }
  }

  /** With no exclusions the result is exactly the fallback range. */
  lemma NoExclusionsGiveFallback(memoryMax: u64, rmoTop: u64, firstBase: u64)
    ensures Synthesize([], memoryMax, rmoTop, firstBase) == [Ram(firstBase, rmoTop)]
  {
  }

  /** The leading gap is the first range and ends just below the first exclusion. */
  lemma LeadingGapFirst(ex: seq<Span>, memoryMax: u64, rmoTop: u64, firstBase: u64)
    requires |ex| > 0 && ex[0].start != 0
    ensures Synthesize(ex, memoryMax, rmoTop, firstBase)[0] == Ram(0, ex[0].start - 1)
  {
  }

  /** Two contiguous exclusions emit nothing between them. */
  lemma ContiguousEmitNothing(ex: seq<Span>, i: nat, memoryMax: u64, rmoTop: u64)
    requires i + 1 < |ex| && ex[i + 1].start == ex[i].end + 1
    ensures EmitFrom(ex, i, memoryMax, rmoTop) == EmitFrom(ex, i + 1, memoryMax, rmoTop)
  {
  }

  // ---------------------------------------------------------------------
  // The output is the complement of the exclusions

  lemma {:induction false} EmitFromInGaps(ex: seq<Span>, i: nat, memoryMax: u64, rmoTop: u64)
    requires WellFormed(ex) && i <= |ex|
    ensures forall r :: r in EmitFrom(ex, i, memoryMax, rmoTop) ==>
      exists j :: i <= j < |ex| && InGapAfter(ex, j, r)
    decreases |ex| - i
  {
    if i < |ex| {
      EmitFromInGaps(ex, i + 1, memoryMax, rmoTop);
      match GapAfter(ex, i, memoryMax)
      case None =>
      case Some(g) =>
        if g.start < rmoTop {
          var r := if g.end >= rmoTop then Ram(g.start, rmoTop) else Ram(g.start, g.end);
          assert InGapAfter(ex, i, r);
        }
    }
  }

  lemma {:induction false} EmitFromOrdered(ex: seq<Span>, i: nat, memoryMax: u64, rmoTop: u64)
    requires WellFormed(ex) && i <= |ex|
    ensures Ordered(EmitFrom(ex, i, memoryMax, rmoTop))
    decreases |ex| - i
  {
    if i < |ex| {
      EmitFromOrdered(ex, i + 1, memoryMax, rmoTop);
      EmitFromInGaps(ex, i, memoryMax, rmoTop);
      EmitFromInGaps(ex, i + 1, memoryMax, rmoTop);
      match GapAfter(ex, i, memoryMax)
      case None =>
      case Some(g) =>
        if g.start < rmoTop && g.end < rmoTop {
          var head := Ram(g.start, g.end);
          var tail := EmitFrom(ex, i + 1, memoryMax, rmoTop);
          forall r | r in tail
            ensures head.end < r.start
          {
            var j :| i + 1 <= j < |ex| && InGapAfter(ex, j, r);
            assert ex[i + 1].start <= ex[j].end;
          }
          OrderedCons(head, tail);
        }
    }
  }

  lemma OrderedCons(head: MemoryRange, tail: seq<MemoryRange>)
    requires head.start <= head.end && Ordered(tail)
    requires forall r :: r in tail ==> head.end < r.start
    ensures Ordered([head] + tail)
  {
    var s := [head] + tail;
    forall a, b | 0 <= a < b < |s|
      ensures s[a].end < s[b].start
    {
      if a > 0 {
        assert s[a] == tail[a - 1] && s[b] == tail[b - 1];
      } else {
        assert s[b] in tail;
      }
    }
  }

  /**
   * For well-formed exclusions the loop's ranges are proper, ascending and
   * pairwise disjoint.
   */
  lemma EmittedOrdered(ex: seq<Span>, memoryMax: u64, rmoTop: u64)
    requires WellFormed(ex)
    ensures Ordered(Emitted(ex, memoryMax, rmoTop))
  {
    EmitFromOrdered(ex, 0, memoryMax, rmoTop);
    var tail := EmitFrom(ex, 0, memoryMax, rmoTop);
    if LeadingGap(ex) != [] {
      var head := LeadingGap(ex)[0];
      EmitFromInGaps(ex, 0, memoryMax, rmoTop);
      forall r | r in tail
        ensures head.end < r.start
      {
        var j :| 0 <= j < |ex| && InGapAfter(ex, j, r);
        assert ex[0].start <= ex[j].end;
      }
      OrderedCons(head, tail);
    }
  }

  /** No address the loop emits lies in any exclusion. */
  lemma EmittedAvoidsExclusions(ex: seq<Span>, memoryMax: u64, rmoTop: u64)
    requires WellFormed(ex)
    ensures forall x :: Covers(Emitted(ex, memoryMax, rmoTop), x) ==> !Excluded(ex, x)
  {
    var out := Emitted(ex, memoryMax, rmoTop);
    var lead := LeadingGap(ex);
    var tail := EmitFrom(ex, 0, memoryMax, rmoTop);
    EmitFromInGaps(ex, 0, memoryMax, rmoTop);
    forall x | Covers(out, x)
      ensures !Excluded(ex, x)
    {
      var c :| 0 <= c < |out| && out[c].start <= x <= out[c].end;
      if c < |lead| {
        forall k | 0 <= k < |ex|
          ensures !(ex[k].start <= x <= ex[k].end)
        {
          assert x < ex[0].start <= ex[k].start;
        }
      } else {
        var r := tail[c - |lead|];
        assert r in tail;
        var j :| 0 <= j < |ex| && InGapAfter(ex, j, r);
        forall k | 0 <= k < |ex|
          ensures !(ex[k].start <= x <= ex[k].end)
        {
          if k > j {
            assert ex[j + 1].start <= ex[k].start;
          } else {
            assert ex[k].end <= ex[j].end;
          }
        }
      }
    }
  }

  lemma {:induction false} EmitFromReaches(ex: seq<Span>, i: nat, j: nat, memoryMax: u64, rmoTop: u64, x: int)
    requires WellFormed(ex) && i <= j < |ex|
    requires GapAfter(ex, j, memoryMax).Some?
    requires GapAfter(ex, j, memoryMax).value.start <= x <= GapAfter(ex, j, memoryMax).value.end
    requires x < rmoTop
    ensures Covers(EmitFrom(ex, i, memoryMax, rmoTop), x)
    decreases j - i
  {
    var e := EmitFrom(ex, i, memoryMax, rmoTop);
    if i == j {
      assert e[0].start <= x <= e[0].end;
    } else {
      EmitFromReaches(ex, i + 1, j, memoryMax, rmoTop, x);
      match GapAfter(ex, i, memoryMax)
      case None =>
      case Some(g) =>
        assert ex[i + 1].start <= ex[j].end;
        assert g.end < rmoTop;
        var tail := EmitFrom(ex, i + 1, memoryMax, rmoTop);
        var c :| 0 <= c < |tail| && tail[c].start <= x <= tail[c].end;
        assert e[c + 1] == tail[c];
    }
  }

  /**
   * Every address below `rmo_top` and at or below `memory_max` that no
   * exclusion holds is in some output range.
   */
  lemma SynthesizeCoversFreeMemory(ex: seq<Span>, memoryMax: u64, rmoTop: u64, firstBase: u64, x: int)
    requires WellFormed(ex) && |ex| > 0
    requires 0 <= x <= memoryMax && x < rmoTop && !Excluded(ex, x)
    ensures Emitted(ex, memoryMax, rmoTop) != []
    ensures Covers(Synthesize(ex, memoryMax, rmoTop, firstBase), x)
  {
    var out := Emitted(ex, memoryMax, rmoTop);
    var lead := LeadingGap(ex);
    if x < ex[0].start {
      assert out[0].start <= x <= out[0].end;
    } else {
      assert ex[0].end < x;
      var j := 0;
      while j + 1 < |ex| && ex[j + 1].end < x
        invariant 0 <= j < |ex| && ex[j].end < x
      {
        j := j + 1;
      }
      if j + 1 < |ex| {
        var next := ex[j + 1];
        assert x < next.start;
      }
      EmitFromReaches(ex, 0, j, memoryMax, rmoTop, x);
      var tail := EmitFrom(ex, 0, memoryMax, rmoTop);
      var c :| 0 <= c < |tail| && tail[c].start <= x <= tail[c].end;
      assert out[|lead| + c] == tail[c];
    }
  }

  /**
   * The set-complement law: when the loop emitted something, an address
   * below `rmo_top` and at or below `memory_max` is in the output exactly
   * when no exclusion holds it.
   */
  lemma SynthesizeIsComplement(ex: seq<Span>, memoryMax: u64, rmoTop: u64, firstBase: u64, x: int)
    requires WellFormed(ex) && |ex| > 0 && Emitted(ex, memoryMax, rmoTop) != []
    requires 0 <= x <= memoryMax && x < rmoTop
    ensures Covers(Synthesize(ex, memoryMax, rmoTop, firstBase), x) <==> !Excluded(ex, x)
  {
    EmittedAvoidsExclusions(ex, memoryMax, rmoTop);
    if !Excluded(ex, x) {
      SynthesizeCoversFreeMemory(ex, memoryMax, rmoTop, firstBase, x);
    }
  }

  /**
   * The fallback fires whenever the loop emitted nothing, not only when
   * there are no exclusions: a kernel exclusion that reaches up to
   * `rmo_top` leaves only a trailing gap above it, which is dropped, and the
   * result is then the fallback range, which lies over the kernel.
   */
  lemma FallbackCanOverlapExclusions()
    ensures var ex := [Span(0, 0x2FFF_FFFF)];
      && Synthesize(ex, 0x3FFF_FFFF, 0x3000_0000, 0) == [Ram(0, 0x3000_0000)]
      && Excluded(ex, 0)
  {
    var ex := [Span(0, 0x2FFF_FFFF)];
    assert ex[0].start <= 0 <= ex[0].end;
  }

  /** rmo_top below memory_max: the trailing gap is cut to end at rmo_top. */
  lemma ClippedTrailingGapScenario()
    ensures Synthesize([Span(0, 0xFFF), Span(0x1_0000, 0x1_FFFF)], 0x3000_0000, 0x2000_0000, 0)
      == [Ram(0x1000, 0xFFFF), Ram(0x2_0000, 0x2000_0000)]
  {
  }

  /** Contiguous exclusions: only the trailing gap is emitted. */
  lemma ContiguousScenario()
    ensures Synthesize([Span(0, 0xFFF), Span(0x1000, 0x1FFF)], 0x2FFF, 0x3FFF, 0)
      == [Ram(0x2000, 0x2FFF)]
  {
  }
}
