/**
 * Three places where the code does something other than what it evidently
 * means to do. For each, the behaviour as written is modelled next to the
 * corrected behaviour that the rest of the model uses, and an input is
 * given on which the two part ways.
 */
module Findings {
  import opened ByteOrder
  import opened Ranges
  import opened DeviceTree
  import opened Collect
  import opened Synthesis
  import opened Planner

  // ---------------------------------------------------------------------
  // 1. Short initrd bounds land in the high half (kexec-ppc.c:445-454, 466-475)

  /**
   * As written: `fread(&initrd_start, st_size, 1, file)` copies the
   * property's `|d|` bytes over the first `|d|` bytes of an 8-byte
   * big-endian `unsigned long long`; its other bytes keep whatever the
   * variable held before (`prev`).
   */
  function LoadIntoU64(prev: u64, d: seq<byte>): u64
    requires 1 <= |d| <= 8
  {
    Pow256Eight();
    BeUint(d + BeBytes(prev, 8)[|d|..])
  }

  /**
   * The load is the property's bytes shifted up past the bytes of `prev` it
   * left in place, plus those bytes' value `low`.
   */
  lemma LoadIntoU64Splits(prev: u64, d: seq<byte>) returns (low: nat)
    requires 1 <= |d| <= 8
    ensures low < Pow256(8 - |d|) && LoadIntoU64(prev, d) == BeUint(d) * Pow256(8 - |d|) + low
  {
    Pow256Eight();
    var held := BeBytes(prev, 8)[|d|..];
    assert |held| == 8 - |d|;
    BeUintAppend(d, held);
    low := BeUint(held);
  }

  /**
   * Only an 8-byte property is read as its value. A shorter one lands in the
   * high bytes: whatever the variable held before, the load is the
   * property's value times 256^(8 - |d|) plus less than 256^(8 - |d|), so
   * any non-zero value shorter than 8 bytes is read wrong.
   */
  lemma LoadIntoU64LandsHigh(prev: u64, d: seq<byte>)
    requires 1 <= |d| <= 8
    ensures BeUint(d) * Pow256(8 - |d|) <= LoadIntoU64(prev, d) < BeUint(d) * Pow256(8 - |d|) + Pow256(8 - |d|)
    ensures |d| < 8 && BeUint(d) > 0 ==> LoadIntoU64(prev, d) != BeUint(d)
  {
    var low := LoadIntoU64Splits(prev, d);
    if |d| < 8 {
      Pow256Monotone(1, 8 - |d|);
    }
    ShiftedBounds(LoadIntoU64(prev, d), BeUint(d), low, Pow256(8 - |d|));
  }

  /** `v * p + r` with `r < p` lies in `[v * p, v * p + p)` and, once `p > 1` and `v > 0`, is not `v`. */
  lemma ShiftedBounds(load: nat, v: nat, r: nat, p: nat)
    requires load == v * p + r && r < p
    ensures v * p <= load < v * p + p
    ensures p > 1 && v > 0 ==> load != v
  {
    if p > 1 && v > 0 {
      MulMono(v, p, 2);
    }
  }

  lemma MulMono(v: nat, a: nat, b: nat)
    requires a >= b
    ensures v * a >= v * b
  {
  }

  /** The four bytes `00 00 10 00` hold 0x1000. */
  lemma Cell0x1000()
    ensures BeUint([0, 0, 0x10, 0]) == 0x1000
  {
    var d: seq<byte> := [0, 0, 0x10, 0];
    var e: seq<byte> := [];
    BeUintSnoc(e, 0);
    BeUintSnoc(e + [0], 0);
    BeUintSnoc(e + [0] + [0], 0x10);
    BeUintSnoc(e + [0] + [0] + [0x10], 0);
    assert e + [0] + [0] + [0x10] + [0] == d;
  }

  /**
   * A 4-byte `linux,initrd-start` holding 0x1000: the property's value is
   * 0x1000, which the corrected reader `ReadSized` returns; the load as
   * written puts 0x1000 in the high half, giving 0x1000 * 2^32 plus whatever
   * the low half held before.
   */
  lemma ShortInitrdStartLandsHigh(prev: u64)
    ensures ReadSized(map["linux,initrd-start" := Bytes([0, 0, 0x10, 0])], "linux,initrd-start") == Ok(0x1000)
    ensures 0x1000 * U32_MOD <= LoadIntoU64(prev, [0, 0, 0x10, 0]) < 0x1000 * U32_MOD + U32_MOD
  {
    Cell0x1000();
    LoadIntoU64LandsHigh(prev, [0, 0, 0x10, 0]);
    Pow256Four();
  }

  /**
   * The same load with `sizeof(unsigned long)` bytes into the `unsigned long
   * long` `htab_base` (kexec-ppc.c:408-412; likewise `htab_size` at
   * kexec-ppc.c:422-426 and `tce_base` at kexec-ppc.c:561-566): a `linux,htab-base`
   * holding 0x1000, which the corrected reader `ReadULong` returns, is
   * loaded as 0x1000 * 2^32 plus whatever the low half held before.
   */
  lemma ShortHtabBaseLandsHigh(prev: u64)
    ensures ReadULong(map["linux,htab-base" := Bytes([0, 0, 0x10, 0])], "linux,htab-base") == Ok(0x1000)
    ensures 0x1000 * U32_MOD <= LoadIntoU64(prev, [0, 0, 0x10, 0]) < 0x1000 * U32_MOD + U32_MOD
  {
    var d: seq<byte> := [0, 0, 0x10, 0];
    Cell0x1000();
    assert d[..4] == d;
    LoadIntoU64LandsHigh(prev, d);
    Pow256Four();
  }

  // ---------------------------------------------------------------------
  // 2. The RTAS and TCE appends do not grow the buffer (kexec-ppc.c:513-515, 582-584)

  /** A memory node whose 8-byte `reg` is the pair (0, 0x1000_0000). */
  const MemoryNode0: Node :=
    Node("memory@0", Props(map["reg" := Bytes([0, 0, 0, 0, 0x10, 0, 0, 0])]))

  const RtasNode: Node :=
    Node("rtas", Props(map["linux,rtas-base" := Bytes([0, 0, 0x10, 0]), "rtas-size" := Bytes([0, 0, 0x10, 0])]))

  const PciNode0: Node :=
    Node("pci@0", Props(map["linux,tce-base" := Bytes([0, 0, 0x20, 0]), "linux,tce-size" := Bytes([0, 0, 0x10, 0])]))

  /** The memory node only sets `rmo_top`: the exclusion list is left alone. */
  lemma MemoryNode0Step(cfg: Config, policy: GrowthPolicy, s: Details)
    ensures NodeStep(cfg, policy, MemoryNode0, s).ok
    ensures NodeStep(cfg, policy, MemoryNode0, s).st.(g := s.g) == s
  {
    assert IsMemoryNode("memory@0");
    MemoryNodesAreDetailsCandidates("memory@0");
    NodeKindsExclusive("memory@0");
  }

  /** As written, the RTAS node appends one range and never grows the buffer. */
  lemma RtasNodeStepAsWritten(cfg: Config, s: Details)
    ensures NodeStep(cfg, AsWritten, RtasNode, s).ok
    ensures |NodeStep(cfg, AsWritten, RtasNode, s).st.excludes| == |s.excludes| + 1
    ensures NodeStep(cfg, AsWritten, RtasNode, s).st.capacity == s.capacity
    ensures NodeStep(cfg, AsWritten, RtasNode, s).st.overrun <==> s.overrun || |s.excludes| >= s.capacity
  {
    assert IsDetailsCandidate("rtas") && !IsChosenNode("rtas") && IsRtasNode("rtas");
  }

  /** As written, the `pci@0` node appends its TCE range and never grows the buffer. */
  lemma PciNode0StepAsWritten(cfg: Config, s: Details)
    ensures NodeStep(cfg, AsWritten, PciNode0, s).st.overrun <==> s.overrun || |s.excludes| >= s.capacity
  {
    assert IsDetailsCandidate("pci@0") && !IsChosenNode("pci@0") && !IsRtasNode("pci@0");
    assert !IsMemoryNode("pci@0") && IsPciNode("pci@0");
  }

  /**
   * One memory node, so `count_memory_ranges` sizes the buffers at one
   * entry; the RTAS node then fills that entry without growing the buffer
   * and the `pci@0` node writes its TCE range one past the end. With a
   * growth check after every append the same tree stays within the buffer.
   */
  lemma TceAppendOverrunsAsWritten(cfg: Config, g: Globals)
    ensures CountedMaxRanges(0, Tree(true, [MemoryNode0, RtasNode, PciNode0]), false) == 1
    ensures ScanDetails(cfg, AsWritten, Tree(true, [MemoryNode0, RtasNode, PciNode0]), InitialDetails(1, g)).st.overrun
    ensures !ScanDetails(cfg, GrowOnEveryAppend, Tree(true, [MemoryNode0, RtasNode, PciNode0]), InitialDetails(1, g)).st.overrun
  {
    var nodes := [MemoryNode0, RtasNode, PciNode0];
    assert nodes[1..] == [RtasNode, PciNode0] && nodes[1..][1..] == [PciNode0] && [PciNode0][1..] == [];
    assert IsMemoryNode("memory@0") && !IsMemoryNode("rtas") && !IsMemoryNode("pci@0");
    var s0 := InitialDetails(1, g);
    var r0 := NodeStep(cfg, AsWritten, MemoryNode0, s0);
    MemoryNode0Step(cfg, AsWritten, s0);
    var r1 := NodeStep(cfg, AsWritten, RtasNode, r0.st);
    RtasNodeStepAsWritten(cfg, r0.st);
    var r2 := NodeStep(cfg, AsWritten, PciNode0, r1.st);
    PciNode0StepAsWritten(cfg, r1.st);
    assert ScanDetailsFrom(cfg, AsWritten, [PciNode0], r1.st).st == r2.st;
    assert ScanDetailsFrom(cfg, AsWritten, nodes[1..], r0.st) == ScanDetailsFrom(cfg, AsWritten, [PciNode0], r1.st);
    assert ScanDetailsFrom(cfg, AsWritten, nodes, s0) == ScanDetailsFrom(cfg, AsWritten, nodes[1..], r0.st);
    assert CountMemoryNodes([PciNode0]) == 0;
    assert CountMemoryNodes(nodes[1..]) == CountMemoryNodes([PciNode0]);
    assert CountMemoryNodes(nodes) == 1 + CountMemoryNodes(nodes[1..]);
    ScanGrows(cfg, GrowOnEveryAppend, nodes, s0);
  }

  // ---------------------------------------------------------------------
  // 3. The realloc takes the wrong buffer (kexec-ppc.c:187-192)

  /** A `chosen` node of a non-LPAR boot: the kernel ends at 0x1000_0000, no hash table. */
  const ChosenNode: Node :=
    Node("chosen", Props(map["linux,kernel-end" := Bytes([0x10, 0, 0, 0])]))

  /** The four bytes `10 00 00 00` hold 0x1000_0000. */
  lemma Cell0x1000_0000()
    ensures BeUint([0x10, 0, 0, 0]) == 0x1000_0000
  {
    var d: seq<byte> := [0x10, 0, 0, 0];
    var e: seq<byte> := [];
    BeUintSnoc(e, 0x10);
    BeUintSnoc(e + [0x10], 0);
    BeUintSnoc(e + [0x10] + [0], 0);
    BeUintSnoc(e + [0x10] + [0] + [0], 0);
    assert e + [0x10] + [0] + [0] + [0] == d;
  }

  /** The `chosen` node appends the kernel range `[0, 0x1000_0000]` and nothing else. */
  lemma ChosenNodeStep(cfg: Config, s: Details)
    requires !cfg.onCrash
    ensures NodeStep(cfg, GrowOnEveryAppend, ChosenNode, s)
      == Step(true, Append(s, Span(0, 0x1000_0000), true))
  {
    var props := ChosenNode.dir.props;
    Cell0x1000_0000();
    Pow256Four();
    var d: seq<byte> := [0x10, 0, 0, 0];
    assert d[..4] == d;
    assert ReadULong(props, "linux,kernel-end") == Ok(0x1000_0000);
    assert IsDetailsCandidate("chosen") && IsChosenNode("chosen");
  }

  /**
   * One memory node sizes the buffers at one entry, so the kernel range of
   * the `chosen` node fills the exclusion buffer and `realloc_memory_ranges`
   * runs: as written that loses the base list (see
   * `ReallocMemoryRangesAsWritten`).
   */
  lemma KernelAppendReallocates(cfg: Config, g: Globals)
    requires !cfg.onCrash
    ensures CountedMaxRanges(0, Tree(true, [MemoryNode0, ChosenNode]), false) == 1
    ensures var r := ScanDetails(cfg, GrowOnEveryAppend, Tree(true, [MemoryNode0, ChosenNode]), InitialDetails(1, g));
      r.ok && r.st.excludes == [Span(0, 0x1000_0000)] && r.st.capacity == 2
  {
    var nodes := [MemoryNode0, ChosenNode];
    assert nodes[1..] == [ChosenNode] && [ChosenNode][1..] == [];
    assert IsMemoryNode("memory@0") && !IsMemoryNode("chosen");
    var s0 := InitialDetails(1, g);
    MemoryNode0Step(cfg, GrowOnEveryAppend, s0);
    var r0 := NodeStep(cfg, GrowOnEveryAppend, MemoryNode0, s0);
    ChosenNodeStep(cfg, r0.st);
    assert ScanDetailsFrom(cfg, GrowOnEveryAppend, nodes, s0)
      == ScanDetailsFrom(cfg, GrowOnEveryAppend, [ChosenNode], r0.st);
    assert CountMemoryNodes([ChosenNode]) == 0;
    assert CountMemoryNodes(nodes) == 1 + CountMemoryNodes(nodes[1..]);
  }

  /**
   * In that tree the kernel range reaches `memory_max`, nothing is emitted
   * and the result is the fallback range starting at `base_memory_range[0]`:
   * with the base list intact that is the memory node's start 0; after the
   * realloc as written it is whatever the fresh block held.
   */
  lemma FallbackStartsAtBase(firstBase: u64)
    ensures Synthesize([Span(0, 0x1000_0000)], 0x1000_0000, 0x1000_0000, firstBase)
      == [Ram(firstBase, 0x1000_0000)]
  {
    assert GapAfter([Span(0, 0x1000_0000)], 0, 0x1000_0000).None?;
  }
}
