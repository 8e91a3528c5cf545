/**
 * The planner's file-level state and its operations, as kexec-ppc.c keeps
 * them: three range buffers sized by `max_memory_ranges`, their fill
 * counts, `memory_max`, and the globals the device-tree scan writes. Each
 * method does what its C function does, step by step, and is proved to end
 * in the state that the folds of `Collect` and the synthesis of
 * `Synthesis` describe.
 */
module Planner {
  import opened ByteOrder
  import opened Ranges
  import opened DeviceTree
  import opened Collect
  import opened Synthesis
  import opened Sorting

  /** The scan's state before the first node: no exclusions, `capacity` slots, globals `g`. */
  function InitialDetails(capacity: nat, g: Globals): Details {
    Details([], capacity, false, g)
  }

  /**
   * `max_memory_ranges` after `count_memory_ranges`: one slot more for every
   * memory node and, with a new-style device tree, one more still.
   */
  function CountedMaxRanges(max0: nat, t: Tree, newDtb: bool): nat {
    max0 + CountMemoryNodes(t.nodes) + (if newDtb then 1 else 0)
  }

  /**
   * Both scans of `setup_memory_ranges` get through the tree: the base
   * ranges are read and the exclusion scan from `d0` reaches its end.
   */
  ghost predicate ScansSucceed(t: Tree, cfg: Config, d0: Details)
    requires RegsWide(t.nodes)
  {
    ScanBase(t).Some? && ScanDetails(cfg, GrowOnEveryAppend, t, d0).ok
  }

  /**
   * What the two scans of `t` leave behind, starting the exclusion scan from
   * `d0`: both succeed, the sorted exclusions `ex` are a permutation of the
   * exclusion scan's list, `memoryMax` is the end of the base range with the
   * greatest start, `firstBase` is the least base start, and the globals `g`
   * are those the exclusion scan computes.
   */
  ghost predicate ScannedFrom(t: Tree, cfg: Config, d0: Details, ex: seq<Span>, memoryMax: int, firstBase: int, g: Globals)
    requires RegsWide(t.nodes)
  {
    && ScansSucceed(t, cfg, d0)
    && IsSortedPermutation(ex, ScanDetails(cfg, GrowOnEveryAppend, t, d0).st.excludes)
    && IsEndOfHighest(ScanBase(t).value, memoryMax)
    && IsLowestStart(ScanBase(t).value, firstBase)
    && g == ScanDetails(cfg, GrowOnEveryAppend, t, d0).st.g
  }

  /** `v` is the end of the range with the greatest start in `rs`. */
  ghost predicate IsEndOfHighest(rs: seq<Span>, v: int) {
    exists k :: 0 <= k < |rs| && rs[k].end == v && forall p :: 0 <= p < |rs| ==> rs[p].start <= rs[k].start
  }

  /** `v` is the least start in `rs`. */
  ghost predicate IsLowestStart(rs: seq<Span>, v: int) {
    exists k :: 0 <= k < |rs| && rs[k].start == v && forall p :: 0 <= p < |rs| ==> v <= rs[p].start
  }

  /**
   * After sorting, the last entry is the range with the greatest start and
   * the first holds the least start of the unsorted list.
   */
  lemma SortedEnds(s: seq<Span>, rs: seq<Span>)
    requires IsSortedPermutation(s, rs) && |s| >= 1
    ensures IsEndOfHighest(rs, s[|s| - 1].end)
    ensures IsLowestStart(rs, s[0].start)
  {
    assert s[|s| - 1] in multiset(rs);
    assert s[0] in multiset(rs);
    var hi :| 0 <= hi < |rs| && rs[hi] == s[|s| - 1];
    var lo :| 0 <= lo < |rs| && rs[lo] == s[0];
    forall p | 0 <= p < |rs|
      ensures s[0].start <= rs[p].start <= s[|s| - 1].start
    {
      assert rs[p] in multiset(s);
      var q :| 0 <= q < |s| && s[q] == rs[p];
    }
  }

  /** Reordering a list of exclusions does not change which addresses it excludes. */
  lemma ExcludedIsOrderFree(a: seq<Span>, b: seq<Span>, x: int)
    requires multiset(a) == multiset(b)
    ensures Excluded(a, x) <==> Excluded(b, x)
  {
    if Excluded(a, x) {
      var k :| 0 <= k < |a| && a[k].start <= x <= a[k].end;
      assert a[k] in multiset(b);
      var j :| 0 <= j < |b| && b[j] == a[k];
    }
    if Excluded(b, x) {
      var k :| 0 <= k < |b| && b[k].start <= x <= b[k].end;
      assert b[k] in multiset(a);
      var j :| 0 <= j < |a| && a[j] == b[k];
    }
  }

  /**
   * The usable ranges planned from a tree are the complement of the tree's
   * own exclusions: below `memory_max` and `rmo_top`, an address lies in a
   * planned range exactly when no exclusion found by the scan of `t` holds it.
   */
  lemma PlannedRangesAreComplement(t: Tree, cfg: Config, d0: Details, ex: seq<Span>,
                                   memoryMax: u64, firstBase: u64, g: Globals, x: int)
    requires RegsWide(t.nodes) && ScannedFrom(t, cfg, d0, ex, memoryMax, firstBase, g)
    requires WellFormed(ex) && |ex| > 0 && Emitted(ex, memoryMax, g.rmoTop) != []
    requires 0 <= x <= memoryMax && x < g.rmoTop
    ensures Covers(Synthesize(ex, memoryMax, g.rmoTop, firstBase), x)
        <==> !Excluded(ScanDetails(cfg, GrowOnEveryAppend, t, d0).st.excludes, x)
  {
    SynthesizeIsComplement(ex, memoryMax, g.rmoTop, firstBase, x);
    ExcludedIsOrderFree(ex, ScanDetails(cfg, GrowOnEveryAppend, t, d0).st.excludes, x);
  }

  /** Every entry of `s` is a RAM range. */
  ghost predicate AllRam(s: seq<MemoryRange>) {
    forall p :: 0 <= p < |s| ==> s[p].rtype == RangeRam
  }

  lemma SpansSnoc(s: seq<MemoryRange>, x: MemoryRange)
    ensures Spans(s + [x]) == Spans(s) + [SpanOf(x)]
  {
  }

  /** A copy of `a` with one more entry, zero-filled. */
  method Grown(a: array<MemoryRange>) returns (b: array<MemoryRange>)
    ensures fresh(b) && b.Length == a.Length + 1
    ensures b[..a.Length] == a[..] && b[a.Length] == ZeroRange
  {
    b := new MemoryRange[a.Length + 1](_ => ZeroRange);
    forall k | 0 <= k < a.Length {
      b[k] := a[k];
    }
  }

  class RangePlanner {
    /** The file's statics. */
    var useNewDtb: bool
    var nrMemoryRanges: int
    var nrExcludeRanges: int
    var memoryRange: array<MemoryRange>
    var baseMemoryRange: array<MemoryRange>
    var excludeRange: array<MemoryRange>
    var memoryMax: u64
    /** The three buffers are allocated and not yet freed. */
    var live: bool
    /** The file's global `max_memory_ranges`: the capacity of each buffer. */
    var maxMemoryRanges: int
    /**
     * The other globals the device-tree scan writes (`rmo_top`,
     * `crash_base`, `crash_size`, `rtas_base`, `rtas_size`, kexec.c's
     * `mem_min` and `mem_max`) and the log of external calls, held as one record.
     */
    var globals: Globals

    ghost predicate Valid()
      reads this
    {
      && memoryRange != baseMemoryRange && memoryRange != excludeRange && baseMemoryRange != excludeRange
      && 0 <= maxMemoryRanges
      && 0 <= nrMemoryRanges <= memoryRange.Length && nrMemoryRanges <= baseMemoryRange.Length
      && 0 <= nrExcludeRanges <= excludeRange.Length
    }

    /** Each buffer is the one it was or a newly allocated one. */
    twostate predicate Renewed()
      reads this
    {
      && (memoryRange == old(memoryRange) || fresh(memoryRange))
      && (baseMemoryRange == old(baseMemoryRange) || fresh(baseMemoryRange))
      && (excludeRange == old(excludeRange) || fresh(excludeRange))
    }

    /** All three buffers hold `max_memory_ranges` entries. */
    ghost predicate Sized()
      reads this
    {
      && memoryRange.Length == maxMemoryRanges
      && baseMemoryRange.Length == maxMemoryRanges
      && excludeRange.Length == maxMemoryRanges
    }

    /** The scan's state while `i` exclusions have been appended. */
    ghost function DetailsAt(i: int): Details
      reads this, excludeRange
      requires 0 <= i <= excludeRange.Length && 0 <= maxMemoryRanges
    {
      Details(Spans(excludeRange[..i]), maxMemoryRanges, false, globals)
    }

    ghost function BaseView(): seq<MemoryRange>
      reads this, baseMemoryRange
      requires Valid()
    {
      baseMemoryRange[..nrMemoryRanges]
    }

    /** The zero-initialised statics and globals; `mem_min`/`mem_max` come from kexec.c. */
    constructor (memMin0: u64, memMax0: u64)
      ensures Valid() && fresh(memoryRange) && fresh(baseMemoryRange) && fresh(excludeRange) && !live && !useNewDtb
      ensures maxMemoryRanges == 0 && nrMemoryRanges == 0 && nrExcludeRanges == 0
      ensures globals == Globals(0, 0, 0, 0, 0, memMin0, memMax0, [])
    {
      useNewDtb := false;
      nrMemoryRanges, nrExcludeRanges := 0, 0;
      memoryRange := new MemoryRange[0];
      baseMemoryRange := new MemoryRange[0];
      excludeRange := new MemoryRange[0];
      memoryMax := 0;
      live := false;
      maxMemoryRanges := 0;
      globals := Globals(0, 0, 0, 0, 0, memMin0, memMax0, []);
    }

    /** `count_memory_ranges` (kexec-ppc.c:65-91). */
    method CountMemoryRanges(t: Tree) returns (rc: int)
      requires Valid()
      modifies this`maxMemoryRanges
      ensures Valid()
      ensures rc == 0 <==> t.rootOpens
      ensures rc != 0 ==> rc == -1 && maxMemoryRanges == old(maxMemoryRanges)
      ensures rc == 0 ==>
        maxMemoryRanges == CountedMaxRanges(old(maxMemoryRanges), t, useNewDtb)
    {
      if !t.rootOpens {
        return -1;
      }
      var k := 0;
      assert t.nodes[0..] == t.nodes;
      while k < |t.nodes|
        invariant 0 <= k <= |t.nodes|
        invariant maxMemoryRanges + CountMemoryNodes(t.nodes[k..]) == old(maxMemoryRanges) + CountMemoryNodes(t.nodes)
      {
        assert t.nodes[k..][1..] == t.nodes[k + 1..];
        if IsMemoryNode(t.nodes[k].name) {
          maxMemoryRanges := maxMemoryRanges + 1;
        }
        k := k + 1;
      }
      if useNewDtb {
        maxMemoryRanges := maxMemoryRanges + 1;
      }
      return 0;
    }

    /** `alloc_memory_ranges` (kexec-ppc.c:100-132): three zero-filled buffers. */
    method AllocMemoryRanges() returns (rc: int)
      requires Valid() && nrMemoryRanges <= maxMemoryRanges && nrExcludeRanges <= maxMemoryRanges
      modifies this`memoryRange, this`baseMemoryRange, this`excludeRange, this`live
      ensures Valid() && Sized() && fresh(memoryRange) && fresh(baseMemoryRange) && fresh(excludeRange) && live && rc == 0
      ensures forall k :: 0 <= k < maxMemoryRanges ==>
        memoryRange[k] == ZeroRange && baseMemoryRange[k] == ZeroRange && excludeRange[k] == ZeroRange
    {
      memoryRange := new MemoryRange[maxMemoryRanges](_ => ZeroRange);
      baseMemoryRange := new MemoryRange[maxMemoryRanges](_ => ZeroRange);
      excludeRange := new MemoryRange[maxMemoryRanges](_ => ZeroRange);
      live := true;
      return 0;
    }

    /**
     * `realloc_memory_ranges` (kexec-ppc.c:180-212) as its callers need it:
     * every buffer gains one entry and keeps its contents.
     */
    method ReallocMemoryRanges()
      requires Valid() && Sized()
      modifies this`maxMemoryRanges, this`memoryRange, this`baseMemoryRange, this`excludeRange
      ensures Valid() && Sized() && Renewed()
      ensures maxMemoryRanges == old(maxMemoryRanges) + 1
      ensures memoryRange[..old(maxMemoryRanges)] == old(memoryRange[..])
      ensures baseMemoryRange[..old(maxMemoryRanges)] == old(baseMemoryRange[..])
      ensures excludeRange[..old(maxMemoryRanges)] == old(excludeRange[..])
    {
      maxMemoryRanges := maxMemoryRanges + 1;
      memoryRange := Grown(memoryRange);
      baseMemoryRange := Grown(baseMemoryRange);
      excludeRange := Grown(excludeRange);
    }

    /**
     * `realloc_memory_ranges` as written (kexec-ppc.c:184-199): `memory_range`
     * is replaced by a fresh block whose entries are whatever the allocator
     * left there (`junk`), and `base_memory_range` is then obtained by
     * reallocating that fresh block rather than the old base list. Taking
     * the case where `realloc` keeps the block in place, the base list
     * becomes the output buffer itself and its ranges are gone.
     */
    method ReallocMemoryRangesAsWritten(junk: MemoryRange)
      requires Valid() && Sized()
      modifies this`maxMemoryRanges, this`memoryRange, this`baseMemoryRange, this`excludeRange
      ensures maxMemoryRanges == old(maxMemoryRanges) + 1
      ensures fresh(memoryRange) && memoryRange.Length == maxMemoryRanges && baseMemoryRange == memoryRange
      ensures forall k :: 0 <= k < baseMemoryRange.Length ==> baseMemoryRange[k] == junk
      ensures excludeRange.Length == maxMemoryRanges && excludeRange[..old(maxMemoryRanges)] == old(excludeRange[..])
      ensures old(nrMemoryRanges) > 0 && old(baseMemoryRange[0]) != junk ==>
        baseMemoryRange[0] != old(baseMemoryRange[0])
    {
      maxMemoryRanges := maxMemoryRanges + 1;
      memoryRange := new MemoryRange[maxMemoryRanges](_ => junk);
      baseMemoryRange := memoryRange;
      excludeRange := Grown(excludeRange);
    }

    /** `cleanup_memory_ranges` (kexec-ppc.c:93-98). */
    method CleanupMemoryRanges()
      modifies this`live
      ensures !live
    {
      live := false;
    }

    /** `sort_ranges` (kexec-ppc.c:134-151). */
    method SortRanges()
      requires Valid()
      modifies excludeRange
      ensures IsSortedPermutation(Spans(excludeRange[..nrExcludeRanges]), Spans(old(excludeRange[..nrExcludeRanges])))
      ensures excludeRange[nrExcludeRanges..] == old(excludeRange[nrExcludeRanges..])
      ensures forall k :: 0 <= k < excludeRange.Length ==> excludeRange[k].rtype == old(excludeRange[k].rtype)
    {
      BubbleSortByStart(excludeRange, nrExcludeRanges);
    }

    /** `sort_base_ranges` (kexec-ppc.c:157-175). */
    method SortBaseRanges()
      requires Valid()
      modifies baseMemoryRange
      ensures IsSortedPermutation(Spans(baseMemoryRange[..nrMemoryRanges]), Spans(old(baseMemoryRange[..nrMemoryRanges])))
      ensures baseMemoryRange[nrMemoryRanges..] == old(baseMemoryRange[nrMemoryRanges..])
      ensures forall k :: 0 <= k < baseMemoryRange.Length ==> baseMemoryRange[k].rtype == old(baseMemoryRange[k].rtype)
    {
      BubbleSortByStart(baseMemoryRange, nrMemoryRanges);
    }

    /**
     * The body of `get_base_ranges`'s loop for one node (kexec-ppc.c:228-270):
     * a memory node with a `reg` adds its range at `local`.
     */
    method PushBaseEntry(node: Node, local: int) returns (ok: bool, next: int)
      requires Valid() && RegWide(node) && 0 <= local
      requires local + (if IsMemoryNode(node.name) then 1 else 0) <= baseMemoryRange.Length
      modifies baseMemoryRange
      ensures ok <==> BaseEntry(node).Some?
      ensures ok ==> local <= next <= baseMemoryRange.Length
      ensures ok ==> Spans(baseMemoryRange[..next]) == Spans(old(baseMemoryRange[..local])) + BaseEntry(node).value
      ensures ok ==> AllRam(old(baseMemoryRange[..local])) ==> AllRam(baseMemoryRange[..next])
      ensures baseMemoryRange[..local] == old(baseMemoryRange[..local])
    {
      ghost var before := baseMemoryRange[..local];
      assert Spans(before) + [] == Spans(before);
      ok, next := true, local;
      if IsMemoryNode(node.name) {
        match node.dir
        case DirFailure =>
          ok := false;
        case Props(props) =>
          if "reg" in props {
            match props["reg"]
            case OpenFailure =>
              ok := false;
            case Bytes(d) =>
              StoreBaseRange(local, RegSpan(d));
              next := local + 1;
          }
      }
    }

    /** `base_memory_range[local]` becomes the RAM range `r` (kexec-ppc.c:262-265). */
    method StoreBaseRange(local: int, r: Span)
      requires Valid() && 0 <= local < baseMemoryRange.Length
      modifies baseMemoryRange
      ensures baseMemoryRange[..local] == old(baseMemoryRange[..local])
      ensures Spans(baseMemoryRange[..local + 1]) == Spans(old(baseMemoryRange[..local])) + [r]
      ensures AllRam(old(baseMemoryRange[..local])) ==> AllRam(baseMemoryRange[..local + 1])
    {
      ghost var before := baseMemoryRange[..local];
      baseMemoryRange[local] := Ram(r.start, r.end);
      assert baseMemoryRange[..local + 1] == before + [Ram(r.start, r.end)];
      SpansSnoc(before, Ram(r.start, r.end));
    }

    /**
     * `get_base_ranges` (kexec-ppc.c:215-287): one RAM entry per memory
     * node's `reg`, sorted, and `memory_max` set to the end of the last.
     * The buffer was sized by `count_memory_ranges`, so its growth branch
     * (kexec-ppc.c:258-263) is never taken over the same tree.
     */
    method GetBaseRanges(t: Tree) returns (rc: int)
      requires Valid() && Sized() && RegsWide(t.nodes) && maxMemoryRanges >= CountMemoryNodes(t.nodes)
      requires exists j :: 0 <= j < |t.nodes| && HasReg(t.nodes[j])
      modifies this`nrMemoryRanges, this`memoryMax, baseMemoryRange
      ensures Valid()
      ensures rc == 0 <==> ScanBase(t).Some?
      ensures rc != 0 ==> rc == -1 && nrMemoryRanges == old(nrMemoryRanges) && memoryMax == old(memoryMax)
      ensures rc == 0 ==> nrMemoryRanges == |ScanBase(t).value| >= 1
      ensures rc == 0 ==> IsSortedPermutation(Spans(baseMemoryRange[..nrMemoryRanges]), ScanBase(t).value)
      ensures rc == 0 ==> AllRam(baseMemoryRange[..nrMemoryRanges])
      ensures rc == 0 ==> memoryMax == baseMemoryRange[nrMemoryRanges - 1].end
      ensures rc == 0 ==> IsEndOfHighest(ScanBase(t).value, memoryMax)
      ensures rc == 0 ==> IsLowestStart(ScanBase(t).value, baseMemoryRange[0].start)
    {
      if !t.rootOpens {
        return -1;
      }
      var ok, local := CollectBaseRanges(t.nodes);
      if !ok {
        return -1;
      }
      ghost var rs := Spans(baseMemoryRange[..local]);
      assert local >= 1 by {
        ScanBaseFromGrows(t.nodes, []);
        var j :| 0 <= j < |t.nodes| && HasReg(t.nodes[j]);
        RegNodeIsCounted(t.nodes, j);
      }
      nrMemoryRanges := local;
      SettleBaseRanges(rs);
      return 0;
    }

    /**
     * The tail of `get_base_ranges` (kexec-ppc.c:272-284): `sort_base_ranges()`
     * and then `memory_max` taken from the last, highest-starting entry.
     */
    method SettleBaseRanges(ghost rs: seq<Span>)
      requires Valid() && nrMemoryRanges >= 1
      requires rs == Spans(baseMemoryRange[..nrMemoryRanges]) && AllRam(baseMemoryRange[..nrMemoryRanges])
      modifies baseMemoryRange, this`memoryMax
      ensures IsSortedPermutation(Spans(baseMemoryRange[..nrMemoryRanges]), rs)
      ensures AllRam(baseMemoryRange[..nrMemoryRanges])
      ensures memoryMax == baseMemoryRange[nrMemoryRanges - 1].end
      ensures IsEndOfHighest(rs, memoryMax) && IsLowestStart(rs, baseMemoryRange[0].start)
    {
      SortBaseRanges();
      memoryMax := baseMemoryRange[nrMemoryRanges - 1].end;
      SortedEnds(Spans(baseMemoryRange[..nrMemoryRanges]), rs);
    }

    /** The loop of `get_base_ranges` (kexec-ppc.c:228-271), filling `base_memory_range[..local]`. */
    method CollectBaseRanges(nodes: seq<Node>) returns (ok: bool, local: int)
      requires Valid() && Sized() && RegsWide(nodes) && maxMemoryRanges >= CountMemoryNodes(nodes)
      modifies baseMemoryRange
      ensures ok <==> ScanBaseFrom(nodes, []).Some?
      ensures ok ==> 0 <= local <= baseMemoryRange.Length && Spans(baseMemoryRange[..local]) == ScanBaseFrom(nodes, []).value
      ensures ok ==> AllRam(baseMemoryRange[..local])
    {
      local := 0;
      var k := 0;
      assert nodes[0..] == nodes;
      assert Spans(baseMemoryRange[..0]) == [];
      while k < |nodes|
        invariant 0 <= k <= |nodes| && 0 <= local <= baseMemoryRange.Length
        invariant RegsWide(nodes[k..])
        invariant ScanBaseFrom(nodes, []) == ScanBaseFrom(nodes[k..], Spans(baseMemoryRange[..local]))
        invariant local + CountMemoryNodes(nodes[k..]) <= maxMemoryRanges
        invariant AllRam(baseMemoryRange[..local])
      {
        var node := nodes[k];
        ghost var rest := nodes[k..];
        assert rest[0] == node && rest[1..] == nodes[k + 1..];
        RegsWideTail(rest);
        assert CountMemoryNodes(rest) == (if IsMemoryNode(node.name) then 1 else 0) + CountMemoryNodes(nodes[k + 1..]);
        ghost var acc := Spans(baseMemoryRange[..local]);
        var next;
        ok, next := PushBaseEntry(node, local);
        if !ok {
          return;
        }
        assert ScanBaseFrom(rest, acc) == ScanBaseFrom(nodes[k + 1..], acc + BaseEntry(node).value);
        local, k := next, k + 1;
      }
      return true, local;
    }

    /**
     * `exclude_range[i] = r; i++;` and then `realloc_memory_ranges()` when
     * `i` has reached `max_memory_ranges` (kexec-ppc.c:345-349, 429-432,
     * 479-483; the same check after the RTAS and TCE appends is the
     * correction recorded under Findings). The entry's type is left as it was.
     */
    method AppendExclusion(i: int, r: Span, ghost s: Details) returns (next: int)
      requires Valid() && Sized() && 0 <= i < maxMemoryRanges && s == DetailsAt(i)
      modifies excludeRange, this`maxMemoryRanges, this`memoryRange, this`baseMemoryRange, this`excludeRange
      ensures Valid() && Sized() && Renewed() && BaseView() == old(BaseView())
      ensures next == i + 1 && next < maxMemoryRanges
      ensures DetailsAt(next) == Append(s, r, true)
    {
      ghost var before := excludeRange[..i];
      excludeRange[i] := excludeRange[i].(start := r.start, end := r.end);
      assert excludeRange[..i + 1] == before + [excludeRange[i]];
      SpansSnoc(before, excludeRange[i]);
      next := i + 1;
      if next >= maxMemoryRanges {
        ghost var kept := excludeRange[..];
        ReallocMemoryRanges();
        assert excludeRange[..next] == kept;
      }
    }

    /** The crash-boot part of the `chosen` branch (kexec-ppc.c:350-392). */
    method VisitCrash(cfg: Config, props: map<string, Prop>, i: int, ghost s: Details) returns (ok: bool)
      requires Valid() && 0 <= i <= excludeRange.Length && s == DetailsAt(i)
      modifies this`globals
      ensures Step(ok, DetailsAt(i)) == CrashStep(cfg, props, s)
    {
      match ReadULong(props, "linux,crashkernel-base")
      case Err(_) =>
        return false;
      case Ok(b) =>
        globals := globals.(crashBase := b);
        match ReadULong(props, "linux,crashkernel-size")
        case Err(_) =>
          return false;
        case Ok(z) =>
          globals := globals.(crashSize := z);
          var top := Wrap64(b + z);
          if b > globals.memMin {
            globals := globals.(memMin := b);
          }
          if top < globals.memMax {
            globals := globals.(memMax := top);
          }
          globals := globals.(calls := globals.calls + [AddUsableMemRgns(0, top), Reserve(cfg.backupLimit, Wrap64(b - cfg.backupLimit))]);
          return true;
    }

    /** The retained-initrd part of the `chosen` branch (kexec-ppc.c:435-484). */
    method VisitInitrd(props: map<string, Prop>, i: int, ghost s: Details) returns (ok: bool, next: int)
      requires Valid() && Sized() && 0 <= i < maxMemoryRanges && s == DetailsAt(i)
      modifies excludeRange, this`maxMemoryRanges, this`memoryRange, this`baseMemoryRange, this`excludeRange
      ensures Valid() && Sized() && Renewed() && BaseView() == old(BaseView())
      ensures 0 <= next < maxMemoryRanges
      ensures Step(ok, DetailsAt(next)) == InitrdStep(props, s)
    {
      match ReadSized(props, "linux,initrd-start")
      case Err(_) =>
        return false, i;
      case Ok(initrdStart) =>
        match ReadSized(props, "linux,initrd-end")
        case Err(_) =>
          return false, i;
        case Ok(initrdEnd) =>
          next := AppendExclusion(i, Span(initrdStart, initrdEnd), s);
          return true, next;
    }

    /** The hash-table part of the `chosen` branch (kexec-ppc.c:393-433). */
    method VisitHtab(cfg: Config, props: map<string, Prop>, i: int, ghost s: Details) returns (ok: bool, next: int)
      requires Valid() && Sized() && 0 <= i < maxMemoryRanges && s == DetailsAt(i)
      modifies excludeRange, this`maxMemoryRanges, this`memoryRange, this`baseMemoryRange, this`excludeRange
      ensures Valid() && Sized() && Renewed() && BaseView() == old(BaseView())
      ensures 0 <= next < maxMemoryRanges
      ensures Step(ok, DetailsAt(next)) == HtabStep(cfg, props, s)
    {
      if "linux,htab-base" !in props {
        return true, i;
      }
      match ReadULong(props, "linux,htab-base")
      case Err(_) =>
        return false, i;
      case Ok(htabBase) =>
        match ReadULong(props, "linux,htab-size")
        case Err(_) =>
          return false, i;
        case Ok(htabSize) =>
          next := AppendExclusion(i, Span(htabBase, htabBase + htabSize), s);
          ghost var s1 := DetailsAt(next);
          assert HtabStep(cfg, props, s) == if cfg.reuseInitrd then InitrdStep(props, s1) else Step(true, s1);
          ok := true;
          if cfg.reuseInitrd {
            ok, next := VisitInitrd(props, next, s1);
          }
    }

    /** The `chosen` branch (kexec-ppc.c:329-485). */
    method VisitChosen(cfg: Config, props: map<string, Prop>, i: int, ghost s: Details) returns (ok: bool, next: int)
      requires Valid() && Sized() && 0 <= i < maxMemoryRanges && s == DetailsAt(i)
      modifies excludeRange, this`maxMemoryRanges, this`memoryRange, this`baseMemoryRange, this`excludeRange
      modifies this`globals
      ensures Valid() && Sized() && Renewed() && BaseView() == old(BaseView())
      ensures 0 <= next < maxMemoryRanges
      ensures Step(ok, DetailsAt(next)) == ChosenStep(cfg, props, s)
    {
      match ReadULong(props, "linux,kernel-end")
      case Err(_) =>
        return false, i;
      case Ok(kernelEnd) =>
        next := AppendExclusion(i, Span(0, kernelEnd), s);
        ghost var s1 := DetailsAt(next);
        ghost var c := if cfg.onCrash then CrashStep(cfg, props, s1) else Step(true, s1);
        if cfg.onCrash {
          ok := VisitCrash(cfg, props, next, s1);
          if !ok {
            return;
          }
        }
        assert c == Step(true, DetailsAt(next));
        ok, next := VisitHtab(cfg, props, next, c.st);
    }

    /**
     * The `rtas` branch (kexec-ppc.c:487-518), with the corrected append
     * that grows the buffer like the others.
     */
    method VisitRtas(cfg: Config, props: map<string, Prop>, i: int, ghost s: Details) returns (ok: bool, next: int)
      requires Valid() && Sized() && 0 <= i < maxMemoryRanges && s == DetailsAt(i)
      modifies excludeRange, this`maxMemoryRanges, this`memoryRange, this`baseMemoryRange, this`excludeRange
      modifies this`globals
      ensures Valid() && Sized() && Renewed() && BaseView() == old(BaseView())
      ensures 0 <= next < maxMemoryRanges
      ensures Step(ok, DetailsAt(next)) == RtasStep(cfg, GrowOnEveryAppend, props, s)
    {
      match ReadUInt(props, "linux,rtas-base")
      case Err(_) =>
        return false, i;
      case Ok(b) =>
        globals := globals.(rtasBase := b);
        match ReadUInt(props, "rtas-size")
        case Err(_) =>
          return false, i;
        case Ok(z) =>
          globals := globals.(rtasSize := z);
          next := AppendExclusion(i, Span(b, Wrap32(b + z)), DetailsAt(i));
          if cfg.onCrash {
            globals := globals.(calls := globals.calls + [AddUsableMemRgns(b, z)]);
          }
          return true, next;
    }

    /** The memory branch (kexec-ppc.c:520-545). */
    method VisitMemory(props: map<string, Prop>, i: int, ghost s: Details) returns (ok: bool)
      requires Valid() && 0 <= i <= excludeRange.Length && s == DetailsAt(i)
      modifies this`globals
      ensures Step(ok, DetailsAt(i)) == MemoryStep(props, s)
    {
      match OpenProp(props, "reg")
      case Err(_) =>
        return false;
      case Ok(d) =>
        match DecodeRmoTop(d)
        case Err(_) =>
          return false;
        case Ok(top) =>
          globals := globals.(rmoTop := top);
          return true;
    }

    /**
     * The `pci@` branch (kexec-ppc.c:547-588), with the corrected append
     * that grows the buffer like the others.
     */
    method VisitPci(cfg: Config, props: map<string, Prop>, i: int, ghost s: Details) returns (ok: bool, next: int)
      requires Valid() && Sized() && 0 <= i < maxMemoryRanges && s == DetailsAt(i)
      modifies excludeRange, this`maxMemoryRanges, this`memoryRange, this`baseMemoryRange, this`excludeRange
      modifies this`globals
      ensures Valid() && Sized() && Renewed() && BaseView() == old(BaseView())
      ensures 0 <= next < maxMemoryRanges
      ensures Step(ok, DetailsAt(next)) == TceStep(cfg, GrowOnEveryAppend, props, s)
    {
      if "linux,tce-base" !in props {
        return true, i;
      }
      match ReadULong(props, "linux,tce-base")
      case Err(_) =>
        return false, i;
      case Ok(tceBase) =>
        match ReadUInt(props, "linux,tce-size")
        case Err(_) =>
          return false, i;
        case Ok(tceSize) =>
          next := AppendExclusion(i, Span(tceBase, tceBase + tceSize), s);
          if cfg.onCrash {
            globals := globals.(calls := globals.calls + [AddUsableMemRgns(tceBase, tceSize)]);
          }
          return true, next;
    }

    /** One iteration of `get_devtree_details`'s directory loop (kexec-ppc.c:315-589). */
    method VisitNode(cfg: Config, node: Node, i: int, ghost s: Details) returns (ok: bool, next: int)
      requires Valid() && Sized() && 0 <= i < maxMemoryRanges && s == DetailsAt(i)
      modifies excludeRange, this`maxMemoryRanges, this`memoryRange, this`baseMemoryRange, this`excludeRange
      modifies this`globals
      ensures Valid() && Sized() && Renewed() && BaseView() == old(BaseView())
      ensures 0 <= next < maxMemoryRanges
      ensures Step(ok, DetailsAt(next)) == NodeStep(cfg, GrowOnEveryAppend, node, s)
    {
      if !IsDetailsCandidate(node.name) {
        return true, i;
      }
      match node.dir
      case DirFailure =>
        return false, i;
      case Props(props) =>
        NodeKindsExclusive(node.name);
        ok, next := true, i;
        if IsChosenNode(node.name) {
          ok, next := VisitChosen(cfg, props, i, s);
        } else if IsRtasNode(node.name) {
          ok, next := VisitRtas(cfg, props, i, s);
        } else if IsMemoryNode(node.name) {
          ok := VisitMemory(props, i, s);
        } else if IsPciNode(node.name) {
          ok, next := VisitPci(cfg, props, i, s);
        }
    }

    /**
     * `get_devtree_details` (kexec-ppc.c:292-612): the directory loop, then
     * `nr_exclude_ranges = i` and `sort_ranges()`. On an error the count is
     * not stored and -1 is returned.
     */
    method GetDevtreeDetails(t: Tree, cfg: Config, ghost d0: Details) returns (rc: int)
      requires Valid() && Sized() && 0 < maxMemoryRanges && d0 == DetailsAt(0)
      modifies excludeRange, this`maxMemoryRanges, this`memoryRange, this`baseMemoryRange, this`excludeRange
      modifies this`globals
      modifies this`nrExcludeRanges
      ensures Valid() && Sized() && Renewed() && BaseView() == old(BaseView())
      ensures rc == 0 <==> ScanDetails(cfg, GrowOnEveryAppend, t, d0).ok
      ensures rc != 0 ==> rc == -1 && nrExcludeRanges == old(nrExcludeRanges)
      ensures globals == ScanDetails(cfg, GrowOnEveryAppend, t, d0).st.g
      ensures maxMemoryRanges == ScanDetails(cfg, GrowOnEveryAppend, t, d0).st.capacity
      ensures rc == 0 ==> nrExcludeRanges == |ScanDetails(cfg, GrowOnEveryAppend, t, d0).st.excludes|
      ensures rc == 0 ==> nrExcludeRanges < maxMemoryRanges
      ensures rc == 0 ==> IsSortedPermutation(Spans(excludeRange[..nrExcludeRanges]),
                                              ScanDetails(cfg, GrowOnEveryAppend, t, d0).st.excludes)
    {
      if !t.rootOpens {
        return -1;
      }
      var i := 0;
      var k := 0;
      assert t.nodes[0..] == t.nodes;
      while k < |t.nodes|
        invariant 0 <= k <= |t.nodes| && 0 <= i < maxMemoryRanges
        invariant Valid() && Sized() && Renewed() && BaseView() == old(BaseView())
        invariant nrExcludeRanges == old(nrExcludeRanges)
        invariant ScanDetails(cfg, GrowOnEveryAppend, t, d0)
               == ScanDetailsFrom(cfg, GrowOnEveryAppend, t.nodes[k..], DetailsAt(i))
      {
        assert t.nodes[k..][0] == t.nodes[k] && t.nodes[k..][1..] == t.nodes[k + 1..];
        var ok;
        ok, i := VisitNode(cfg, t.nodes[k], i, DetailsAt(i));
        if !ok {
          return -1;
        }
        k := k + 1;
      }
      nrExcludeRanges := i;
      SortRanges();
      return 0;
    }

    /**
     * Writes candidate `g` at `memory_range[j]` and applies the
     * `rmo_top` rule (kexec-ppc.c:646-661, 666-680): a candidate starting
     * at or above `rmo_top` is taken back and stops the loop, one that
     * reaches `rmo_top` is cut there and stops it.
     */
    method EmitGap(j: int, g: Span) returns (next: int, stop: bool)
      requires Valid() && 0 <= j < memoryRange.Length
      modifies memoryRange
      ensures g.start >= globals.rmoTop ==> stop && next == j && memoryRange[..j] == old(memoryRange[..j])
      ensures g.start < globals.rmoTop <= g.end ==>
        stop && next == j + 1 && memoryRange[..next] == old(memoryRange[..j]) + [Ram(g.start, globals.rmoTop)]
      ensures g.end < globals.rmoTop && g.start < globals.rmoTop ==>
        !stop && next == j + 1 && memoryRange[..next] == old(memoryRange[..j]) + [Ram(g.start, g.end)]
    {
      memoryRange[j] := Ram(g.start, g.end);
      next, stop := j + 1, false;
      if memoryRange[next - 1].start >= globals.rmoTop {
        next, stop := next - 1, true;
      } else if memoryRange[next - 1].start < globals.rmoTop && memoryRange[next - 1].end >= globals.rmoTop {
        memoryRange[next - 1] := memoryRange[next - 1].(end := globals.rmoTop);
        stop := true;
      }
    }

    /**
     * Iteration `i` of `setup_memory_ranges`'s loop after the leading gap
     * (kexec-ppc.c:645-680): the candidate gap after exclusion `i`, if
     * any, is written at `j`. Where the source would compare the last
     * exclusion with the entry one past the list, this does not read it.
     */
    method EmitAfter(ghost ex: seq<Span>, i: int, j: int) returns (next: int, stop: bool)
      requires Valid() && ex == Spans(excludeRange[..nrExcludeRanges])
      requires 0 <= i < nrExcludeRanges && 0 <= j < memoryRange.Length
      modifies memoryRange
      ensures j <= next <= j + 1
      ensures stop ==> memoryRange[..next] == old(memoryRange[..j]) + EmitFrom(ex, i, memoryMax, globals.rmoTop)
      ensures !stop ==> memoryRange[..next] + EmitFrom(ex, i + 1, memoryMax, globals.rmoTop)
                        == old(memoryRange[..j]) + EmitFrom(ex, i, memoryMax, globals.rmoTop)
    {
      var n := nrExcludeRanges;
      ghost var before := memoryRange[..j];
      next, stop := j, false;
      if i == n - 1 && excludeRange[i].end < memoryMax {
        var g := Span(excludeRange[i].end + 1, memoryMax);
        assert GapAfter(ex, i, memoryMax) == Some(g);
        next, stop := EmitGap(j, g);
      } else if i + 1 < n && excludeRange[i + 1].start != Inc64(excludeRange[i].end) {
        var g := Span(Inc64(excludeRange[i].end), Dec64(excludeRange[i + 1].start));
        assert GapAfter(ex, i, memoryMax) == Some(g);
        next, stop := EmitGap(j, g);
      } else {
        assert GapAfter(ex, i, memoryMax) == None;
      }
      if !stop && next == j + 1 {
        assert memoryRange[..next] + EmitFrom(ex, i + 1, memoryMax, globals.rmoTop)
            == before + ([memoryRange[j]] + EmitFrom(ex, i + 1, memoryMax, globals.rmoTop));
      }
    }

    /**
     * The loop of `setup_memory_ranges` (kexec-ppc.c:629-681): `j` usable
     * ranges are written, exactly the ones `Emitted` describes.
     */
    method EmitUsableRanges() returns (j: int)
      requires Valid() && Sized() && nrExcludeRanges < maxMemoryRanges
      modifies memoryRange
      ensures 0 <= j <= nrExcludeRanges + 1
      ensures memoryRange[..j] == Emitted(Spans(excludeRange[..nrExcludeRanges]), memoryMax, globals.rmoTop)
    {
      ghost var ex := Spans(excludeRange[..nrExcludeRanges]);
      var n := nrExcludeRanges;
      var i := 0;
      j := 0;
      while i < n
        invariant 0 <= i <= n && 0 <= j <= i + 1 && (i == 0 ==> j == 0)
        invariant i > 0 ==> memoryRange[..j] + EmitFrom(ex, i, memoryMax, globals.rmoTop) == Emitted(ex, memoryMax, globals.rmoTop)
      {
        if i == 0 {
          if excludeRange[i].start != 0 {
            memoryRange[j] := Ram(0, excludeRange[i].start - 1);
            j := j + 1;
          }
          assert memoryRange[..j] == LeadingGap(ex);
        }
        var stop;
        j, stop := EmitAfter(ex, i, j);
        if stop {
          break;
        }
        i := i + 1;
      }
    }

    /**
     * `setup_memory_ranges` (kexec-ppc.c:616-704): the base ranges, the
     * exclusions, the usable ranges between them, and the single-range
     * fallback when none was emitted. Either scan failing releases the
     * buffers and returns -1. The output count is stored in
     * `nr_memory_ranges`, the variable the base scan also used.
     */
    method SetupMemoryRanges(t: Tree, cfg: Config, ghost d0: Details) returns (rc: int)
      requires Valid() && Sized() && live && d0 == DetailsAt(0)
      requires RegsWide(t.nodes) && maxMemoryRanges >= CountMemoryNodes(t.nodes)
      requires exists j :: 0 <= j < |t.nodes| && HasReg(t.nodes[j])
      modifies this, memoryRange, baseMemoryRange, excludeRange
      ensures Valid() && Sized() && Renewed()
      ensures rc == 0 <==> ScansSucceed(t, cfg, d0)
      ensures rc != 0 ==> rc == -1 && !live
      ensures rc == 0 ==> live && 1 <= nrMemoryRanges <= nrExcludeRanges + 1 && AllRam(memoryRange[..nrMemoryRanges])
      ensures rc == 0 ==>
        memoryRange[..nrMemoryRanges] == Synthesize(Spans(excludeRange[..nrExcludeRanges]), memoryMax, globals.rmoTop, baseMemoryRange[0].start)
      ensures rc == 0 ==> ScannedFrom(t, cfg, d0, Spans(excludeRange[..nrExcludeRanges]), memoryMax,
                                      baseMemoryRange[0].start, globals)
    {
      rc := ScanTree(t, cfg, d0);
      if rc != 0 {
        CleanupMemoryRanges();
        return -1;
      }
      FillUsableRanges();
    }

    /**
     * The two scans that open `setup_memory_ranges` (kexec-ppc.c:620-626):
     * `get_base_ranges()` and then `get_devtree_details()`, stopping at the
     * first that fails.
     */
    method ScanTree(t: Tree, cfg: Config, ghost d0: Details) returns (rc: int)
      requires Valid() && Sized() && d0 == DetailsAt(0)
      requires RegsWide(t.nodes) && maxMemoryRanges >= CountMemoryNodes(t.nodes)
      requires exists j :: 0 <= j < |t.nodes| && HasReg(t.nodes[j])
      modifies this`nrMemoryRanges, this`memoryMax, this`nrExcludeRanges, this`globals
      modifies this`maxMemoryRanges, this`memoryRange, this`baseMemoryRange, this`excludeRange
      modifies baseMemoryRange, excludeRange
      ensures Valid() && Sized() && Renewed()
      ensures rc == 0 <==> ScansSucceed(t, cfg, d0)
      ensures rc != 0 ==> rc == -1
      ensures rc == 0 ==> 1 <= nrMemoryRanges && nrExcludeRanges < maxMemoryRanges
      ensures rc == 0 ==> ScannedFrom(t, cfg, d0, Spans(excludeRange[..nrExcludeRanges]), memoryMax,
                                      baseMemoryRange[0].start, globals)
    {
      rc := GetBaseRanges(t);
      if rc != 0 {
        return -1;
      }
      rc := GetDevtreeDetails(t, cfg, d0);
      if rc != 0 {
        return -1;
      }
      assert baseMemoryRange[..nrMemoryRanges] == BaseView();
    }

    /**
     * The part of `setup_memory_ranges` after the scans (kexec-ppc.c:628-701):
     * the gaps are emitted and, when none was, the single fallback range
     * from the first base range's start up to `rmo_top` is stored.
     */
    method FillUsableRanges()
      requires Valid() && Sized() && nrExcludeRanges < maxMemoryRanges && 1 <= nrMemoryRanges
      modifies memoryRange, this`nrMemoryRanges
      ensures 1 <= nrMemoryRanges <= nrExcludeRanges + 1 && Valid()
      ensures memoryRange[..nrMemoryRanges]
           == Synthesize(Spans(excludeRange[..nrExcludeRanges]), memoryMax, globals.rmoTop, baseMemoryRange[0].start)
      ensures AllRam(memoryRange[..nrMemoryRanges])
    {
      var j := EmitUsableRanges();
      if j == 0 {
        memoryRange[0] := Ram(baseMemoryRange[0].start, globals.rmoTop);
        nrMemoryRanges := 1;
      } else {
        nrMemoryRanges := j;
      }
      SynthesizeShape(Spans(excludeRange[..nrExcludeRanges]), memoryMax, globals.rmoTop, baseMemoryRange[0].start);
    }

    /**
     * The first two steps of `get_memory_ranges_dt` (kexec-ppc.c:709-713):
     * `count_memory_ranges()` and `alloc_memory_ranges()`, after which the
     * exclusion scan starts from an empty list at the counted capacity.
     */
    method PrepareRanges(t: Tree) returns (rc: int)
      requires Valid() && nrMemoryRanges == 0 && nrExcludeRanges == 0
      modifies this`maxMemoryRanges, this`memoryRange, this`baseMemoryRange, this`excludeRange, this`live
      ensures Valid() && (rc == 0 <==> t.rootOpens) && (rc != 0 ==> rc == -1)
      ensures rc == 0 ==> Sized() && live && fresh(memoryRange) && fresh(baseMemoryRange) && fresh(excludeRange)
      ensures rc == 0 ==> DetailsAt(0) == InitialDetails(CountedMaxRanges(old(maxMemoryRanges), t, useNewDtb), globals)
    {
      rc := CountMemoryRanges(t);
      if rc != 0 {
        return -1;
      }
      rc := AllocMemoryRanges();
      assert Spans(excludeRange[..0]) == [];
    }

    /**
     * `get_memory_ranges_dt` (kexec-ppc.c:707-721): count, allocate, set up;
     * on success the usable ranges are handed back, computed from what the
     * two scans of `t` found.
     */
    method GetMemoryRangesDt(t: Tree, cfg: Config) returns (rc: int, ranges: seq<MemoryRange>)
      requires Valid() && nrMemoryRanges == 0 && nrExcludeRanges == 0
      requires RegsWide(t.nodes) && exists j :: 0 <= j < |t.nodes| && HasReg(t.nodes[j])
      modifies this
      ensures Valid()
      ensures rc == 0 <==> ScansSucceed(t, cfg, InitialDetails(CountedMaxRanges(old(maxMemoryRanges), t, old(useNewDtb)), old(globals)))
      ensures rc != 0 ==> rc == -1 && ranges == []
      ensures rc == 0 ==> Sized() && 1 <= nrMemoryRanges && ranges == memoryRange[..nrMemoryRanges]
      ensures rc == 0 ==>
        ranges == Synthesize(Spans(excludeRange[..nrExcludeRanges]), memoryMax, globals.rmoTop, baseMemoryRange[0].start)
      ensures rc == 0 ==> |ranges| <= nrExcludeRanges + 1 && AllRam(ranges)
      ensures rc == 0 ==>
        ScannedFrom(t, cfg, InitialDetails(CountedMaxRanges(old(maxMemoryRanges), t, old(useNewDtb)), old(globals)),
                    Spans(excludeRange[..nrExcludeRanges]), memoryMax, baseMemoryRange[0].start, globals)
    {
      rc := PrepareRanges(t);
      if rc != 0 {
        assert ScanBase(t).None?;
        return -1, [];
      }
      ghost var d0 := InitialDetails(CountedMaxRanges(old(maxMemoryRanges), t, old(useNewDtb)), old(globals));
      rc := SetupMemoryRanges(t, cfg, d0);
      ranges := if rc == 0 then memoryRange[..nrMemoryRanges] else [];
    }
  }
}
