/**
 * The two device-tree scans as pure folds over the top-level nodes, in
 * directory order: `get_base_ranges` (one RAM range per memory node's
 * `reg`) and `get_devtree_details` (one exclusion per reservation source,
 * plus `rmo_top`, the crash-kernel bounds and the RTAS globals). The class
 * in `Planner` runs these scans step by step and is proved to end in the
 * state these folds compute.
 */
module Collect {
  import opened ByteOrder
  import opened Ranges
  import opened DeviceTree

  // ---------------------------------------------------------------------
  // Counting memory nodes (kexec-ppc.c:65-91)

  /** How many top-level entries are named `memory` or `memory@…`. */
  function CountMemoryNodes(nodes: seq<Node>): nat {
    if nodes == [] then 0
    else (if IsMemoryNode(nodes[0].name) then 1 else 0) + CountMemoryNodes(nodes[1..])
  }

  /** A node whose `reg` the base scan reads: a memory node that has one. */
  predicate HasReg(node: Node) {
    IsMemoryNode(node.name) && node.dir.Props? && "reg" in node.dir.props
  }

  /** How many memory nodes have a `reg` property. */
  function CountRegNodes(nodes: seq<Node>): nat {
    if nodes == [] then 0
    else (if HasReg(nodes[0]) then 1 else 0) + CountRegNodes(nodes[1..])
  }

  /** The count `count_memory_ranges` takes covers every node the base scan takes a range from. */
  lemma {:induction false} RegNodesAreCounted(nodes: seq<Node>)
    ensures CountRegNodes(nodes) <= CountMemoryNodes(nodes)
  {
    if nodes != [] {
      RegNodesAreCounted(nodes[1..]);
    }
  }

  /** A memory node with a `reg` is counted. */
  lemma {:induction false} RegNodeIsCounted(nodes: seq<Node>, j: nat)
    requires j < |nodes| && HasReg(nodes[j])
    ensures CountRegNodes(nodes) >= 1
  {
    if j > 0 {
      assert nodes[1..][j - 1] == nodes[j];
      RegNodeIsCounted(nodes[1..], j - 1);
    }
  }

  // ---------------------------------------------------------------------
  // Base ranges (kexec-ppc.c:215-287)

  /**
   * A memory node's `reg` holds at least one 32-bit (base, size) pair. The
   * scan reads two words from its buffer whatever the property's length, so
   * a shorter `reg` would leave it reading bytes that were never filled.
   */
  predicate RegWide(node: Node) {
    HasReg(node) && node.dir.props["reg"].Bytes? ==> |node.dir.props["reg"].data| >= 8
  }

  predicate RegsWide(nodes: seq<Node>) {
    forall k :: 0 <= k < |nodes| ==> RegWide(nodes[k])
  }

  /** The RAM range a `reg` yields: `[base, base + size]` from its first two 32-bit cells. */
  function RegSpan(d: seq<byte>): (r: Span)
    requires |d| >= 8
    ensures r.start <= r.end && r.start < Pow256(4) && r.end - r.start < Pow256(4)
    ensures BeBytes(r.start, 4) == d[0..4] && BeBytes(r.end - r.start, 4) == d[4..8]
  {
    Pow256Four();
    var (base, size) := BaseRegWords(d);
    Span(base, base + size)
  }

  /**
   * What one node adds to the base list: nothing for other names or a
   * memory node without `reg`, `None` when the node's directory or its
   * `reg` cannot be opened.
   */
  function BaseEntry(node: Node): (r: Option<seq<Span>>)
    requires RegWide(node)
    ensures r.Some? ==> |r.value| <= 1
  {
    if !IsMemoryNode(node.name) then Some([])
    else match node.dir
      case DirFailure => None
      case Props(props) =>
        if "reg" !in props then Some([])
        else match props["reg"]
          case OpenFailure => None
          case Bytes(d) => Some([RegSpan(d)])
  }

  /** The base scan from `nodes` on, `acc` holding the ranges found so far. */
  function ScanBaseFrom(nodes: seq<Node>, acc: seq<Span>): Option<seq<Span>>
    requires RegsWide(nodes)
  {
    if nodes == [] then Some(acc)
    else match BaseEntry(nodes[0])
      case None => None
      case Some(h) => ScanBaseFrom(nodes[1..], acc + h)
  }

  /** The unsorted base list, or `None` when the scan fails. */
  function ScanBase(t: Tree): Option<seq<Span>>
    requires RegsWide(t.nodes)
  {
    if !t.rootOpens then None else ScanBaseFrom(t.nodes, [])
  }

  /** `rs[k]` is the range of some memory node's `reg` in `nodes`. */
  ghost predicate FromSomeReg(nodes: seq<Node>, r: Span) {
    exists j :: 0 <= j < |nodes| && HasReg(nodes[j]) && nodes[j].dir.props["reg"].Bytes?
      && |nodes[j].dir.props["reg"].data| >= 8 && r == RegSpan(nodes[j].dir.props["reg"].data)
  }

  /** `rs` is `acc` followed by one range per memory node with a `reg`, each taken from a `reg`. */
  ghost predicate ExtendsFromRegs(nodes: seq<Node>, acc: seq<Span>, rs: seq<Span>) {
    && |rs| == |acc| + CountRegNodes(nodes)
    && rs[..|acc|] == acc
    && forall k :: |acc| <= k < |rs| ==> FromSomeReg(nodes, rs[k])
  }

  lemma RegsWideTail(nodes: seq<Node>)
    requires nodes != [] && RegsWide(nodes)
    ensures RegsWide(nodes[1..])
  {
    forall k | 0 <= k < |nodes[1..]| ensures RegWide(nodes[1..][k]) {
      assert nodes[1..][k] == nodes[k + 1];
    }
  }

  /**
   * The scan keeps what it had, adds exactly one range per memory node
   * with a `reg`, and each range it adds is `[base, base + size]` of some
   * memory node's `reg`.
   */
  lemma {:induction false} ScanBaseFromGrows(nodes: seq<Node>, acc: seq<Span>)
    requires RegsWide(nodes) && ScanBaseFrom(nodes, acc).Some?
    ensures ExtendsFromRegs(nodes, acc, ScanBaseFrom(nodes, acc).value)
  {
    if nodes != [] {
      var h := BaseEntry(nodes[0]).value;
      RegsWideTail(nodes);
      ScanBaseFromGrows(nodes[1..], acc + h);
      var rs := ScanBaseFrom(nodes, acc).value;
      assert rs == ScanBaseFrom(nodes[1..], acc + h).value;
      assert rs[..|acc|] == (rs[..|acc + h|])[..|acc|];
      forall k | |acc| <= k < |rs|
        ensures FromSomeReg(nodes, rs[k])
      {
        if k < |acc + h| {
          assert rs[k] == (acc + h)[k] == h[0];
          assert nodes[0].dir.props["reg"].Bytes?;
        } else {
          assert FromSomeReg(nodes[1..], rs[k]);
          var j :| 0 <= j < |nodes[1..]| && HasReg(nodes[1..][j]) && nodes[1..][j].dir.props["reg"].Bytes?
             && |nodes[1..][j].dir.props["reg"].data| >= 8 && rs[k] == RegSpan(nodes[1..][j].dir.props["reg"].data);
          assert nodes[1..][j] == nodes[j + 1];
        }
      }
    }
  }

  /** A memory node whose directory or `reg` cannot be opened fails the whole scan. */
  lemma {:induction false} ScanBaseFromFails(nodes: seq<Node>, acc: seq<Span>, j: nat)
    requires RegsWide(nodes) && j < |nodes| && IsMemoryNode(nodes[j].name)
    requires nodes[j].dir.DirFailure? || (HasReg(nodes[j]) && nodes[j].dir.props["reg"].OpenFailure?)
    ensures ScanBaseFrom(nodes, acc) == None
  {
    if j > 0 {
      match BaseEntry(nodes[0])
      case None =>
      case Some(h) =>
        RegsWideTail(nodes);
        assert nodes[1..][j - 1] == nodes[j];
        ScanBaseFromFails(nodes[1..], acc + h, j - 1);
    }
  }

  /** The range of a `reg` that holds one 32-bit pair is `[base, base + size]`. */
  lemma RegSpanOfCells(base: u32, size: u32)
    ensures Pow256(4) == U32_MOD
    ensures RegSpan(BeBytes(base, 4) + BeBytes(size, 4)) == Span(base, base + size)
  {
    Pow256Four();
    var d := BeBytes(base, 4) + BeBytes(size, 4);
    var r := RegSpan(d);
    assert d[0..4] == BeBytes(base, 4) && d[4..8] == BeBytes(size, 4);
    BeUintOfBeBytes(base, 4);
    BeUintOfBeBytes(size, 4);
    BeUintOfBeBytes(r.start, 4);
    BeUintOfBeBytes(r.end - r.start, 4);
  }

  /**
   * A tree whose one memory node has an 8-byte `reg` yields exactly that
   * `reg`'s range (with `RegSpanOfCells`: `[base, base + size]`).
   */
  lemma BaseRangeOfReg(d: seq<byte>)
    requires |d| == 8
    ensures RegsWide([Node("memory", Props(map["reg" := Bytes(d)]))])
    ensures ScanBase(Tree(true, [Node("memory", Props(map["reg" := Bytes(d)]))])) == Some([RegSpan(d)])
  {
    var node := Node("memory", Props(map["reg" := Bytes(d)]));
    assert IsMemoryNode(node.name);
    assert BaseEntry(node) == Some([RegSpan(d)]);
    var nodes := [node];
    assert RegsWide(nodes);
    assert nodes[0] == node && nodes[1..] == [];
    var none: seq<Span> := [];
    assert none + [RegSpan(d)] == [RegSpan(d)];
    assert ScanBaseFrom(nodes, none) == ScanBaseFrom(nodes[1..], none + [RegSpan(d)]);
  }

  // ---------------------------------------------------------------------
  // Exclusions and globals (kexec-ppc.c:292-612)

  /** A call into code outside this file; the model records it and nothing more. */
  datatype ExternalCall =
    | AddUsableMemRgns(base: u64, size: u64)
    | Reserve(start: u64, size: u64)

  /**
   * What the caller decides: `onCrash` is `kexec_flags & KEXEC_ON_CRASH`,
   * `reuseInitrd` is kexec.c's `reuse_initrd`, and `backupLimit` stands for
   * `KDUMP_BACKUP_LIMIT` (crashdump-powerpc.h is not part of this model).
   */
  datatype Config = Config(onCrash: bool, reuseInitrd: bool, backupLimit: u64)

  /**
   * The globals the scan writes: `rmo_top`, `crash_base`, `crash_size`,
   * `rtas_base`, `rtas_size`, kexec.c's `mem_min` and `mem_max`, and the log
   * of external calls.
   */
  datatype Globals = Globals(
    rmoTop: u64, crashBase: u64, crashSize: u64, rtasBase: u32, rtasSize: u32,
    memMin: u64, memMax: u64, calls: seq<ExternalCall>)

  /**
   * How the exclusion buffer grows. `AsWritten`: only the three appends in
   * the `chosen` branch grow it (kexec-ppc.c:348-349, 431-432, 482-483);
   * the RTAS and TCE appends (kexec-ppc.c:513-515, 582-584) do not.
   * `GrowOnEveryAppend`: every append is followed by the same check.
   */
  datatype GrowthPolicy = AsWritten | GrowOnEveryAppend

  /**
   * The scan's state: the exclusions appended so far, the buffer's capacity
   * (`max_memory_ranges`), whether some append wrote at or past the
   * capacity, and the globals.
   */
  datatype Details = Details(excludes: seq<Span>, capacity: nat, overrun: bool, g: Globals)

  /** `ok` is false when the scan takes one of its `goto error_…` exits. */
  datatype Step = Step(ok: bool, st: Details)

  /**
   * `exclude_range[i] = r; i++;` followed, when `grows`, by the
   * `if (i >= max_memory_ranges) realloc_memory_ranges();` check, which adds one slot.
   */
  function Append(s: Details, r: Span, grows: bool): (t: Details)
    ensures t.excludes == s.excludes + [r] && t.g == s.g
    ensures t.overrun <==> s.overrun || |s.excludes| >= s.capacity
    ensures grows && |s.excludes| < s.capacity ==> |t.excludes| < t.capacity
    ensures !grows ==> t.capacity == s.capacity
  {
    var t := s.(excludes := s.excludes + [r], overrun := s.overrun || |s.excludes| >= s.capacity);
    if grows && |t.excludes| >= t.capacity then t.(capacity := t.capacity + 1) else t
  }

  /**
   * The crash-kernel bounds: `mem_min` is raised to `crash_base` and
   * `mem_max` lowered to `crash_base + crash_size` (kexec-ppc.c:384-387).
   */
  function Narrow(memMin: u64, memMax: u64, crashBase: u64, crashSize: u64): (r: (u64, u64))
    ensures r.0 >= memMin && r.0 >= crashBase && (r.0 == memMin || r.0 == crashBase)
    ensures r.1 <= memMax && r.1 <= Wrap64(crashBase + crashSize)
    ensures r.1 == memMax || r.1 == Wrap64(crashBase + crashSize)
  {
    var top := Wrap64(crashBase + crashSize);
    (if crashBase > memMin then crashBase else memMin, if top < memMax then top else memMax)
  }

  /** The crash-boot part of the `chosen` branch (kexec-ppc.c:350-392). */
  function CrashStep(cfg: Config, props: map<string, Prop>, s: Details): Step {
    match ReadULong(props, "linux,crashkernel-base")
    case Err(_) => Step(false, s)
    case Ok(crashBase) =>
      var s1 := s.(g := s.g.(crashBase := crashBase));
      match ReadULong(props, "linux,crashkernel-size")
      case Err(_) => Step(false, s1)
      case Ok(crashSize) =>
        var bounds := Narrow(s.g.memMin, s.g.memMax, crashBase, crashSize);
        var top := Wrap64(crashBase + crashSize);
        var calls := [AddUsableMemRgns(0, top), Reserve(cfg.backupLimit, Wrap64(crashBase - cfg.backupLimit))];
        Step(true, s1.(g := s1.g.(crashSize := crashSize, memMin := bounds.0, memMax := bounds.1,
                                  calls := s.g.calls + calls)))
  }

  /** The retained-initrd part of the `chosen` branch (kexec-ppc.c:435-484). */
  function InitrdStep(props: map<string, Prop>, s: Details): Step {
    match ReadSized(props, "linux,initrd-start")
    case Err(_) => Step(false, s)
    case Ok(initrdStart) =>
      match ReadSized(props, "linux,initrd-end")
      case Err(_) => Step(false, s)
      case Ok(initrdEnd) => Step(true, Append(s, Span(initrdStart, initrdEnd), true))
  }

  /**
   * The hash-table part of the `chosen` branch (kexec-ppc.c:393-433): no
   * `linux,htab-base` at all ends the node without an error.
   */
  function HtabStep(cfg: Config, props: map<string, Prop>, s: Details): Step {
    if "linux,htab-base" !in props then Step(true, s)
    else match ReadULong(props, "linux,htab-base")
      case Err(_) => Step(false, s)
      case Ok(htabBase) =>
        match ReadULong(props, "linux,htab-size")
        case Err(_) => Step(false, s)
        case Ok(htabSize) =>
          var s1 := Append(s, Span(htabBase, htabBase + htabSize), true);
          if cfg.reuseInitrd then InitrdStep(props, s1) else Step(true, s1)
  }

  /** The `chosen` branch (kexec-ppc.c:329-485). */
  function ChosenStep(cfg: Config, props: map<string, Prop>, s: Details): Step {
    match ReadULong(props, "linux,kernel-end")
    case Err(_) => Step(false, s)
    case Ok(kernelEnd) =>
      var s1 := Append(s, Span(0, kernelEnd), true);
      var c := if cfg.onCrash then CrashStep(cfg, props, s1) else Step(true, s1);
      if !c.ok then c else HtabStep(cfg, props, c.st)
  }

  /**
   * The `rtas` branch (kexec-ppc.c:487-518): `rtas_base + rtas_size` is an
   * `unsigned int` sum and wraps at 2^32.
   */
  function RtasStep(cfg: Config, policy: GrowthPolicy, props: map<string, Prop>, s: Details): Step {
    match ReadUInt(props, "linux,rtas-base")
    case Err(_) => Step(false, s)
    case Ok(rtasBase) =>
      var s1 := s.(g := s.g.(rtasBase := rtasBase));
      match ReadUInt(props, "rtas-size")
      case Err(_) => Step(false, s1)
      case Ok(rtasSize) =>
        var s2 := Append(s1.(g := s1.g.(rtasSize := rtasSize)), Span(rtasBase, Wrap32(rtasBase + rtasSize)),
                         policy == GrowOnEveryAppend);
        var calls := if cfg.onCrash then [AddUsableMemRgns(rtasBase, rtasSize)] else [];
        Step(true, s2.(g := s2.g.(calls := s2.g.calls + calls)))
  }

  /** The memory branch (kexec-ppc.c:520-545): `rmo_top` from the node's `reg`. */
  function MemoryStep(props: map<string, Prop>, s: Details): Step {
    match OpenProp(props, "reg")
    case Err(_) => Step(false, s)
    case Ok(d) =>
      match DecodeRmoTop(d)
      case Err(_) => Step(false, s)
      case Ok(rmoTop) => Step(true, s.(g := s.g.(rmoTop := rmoTop)))
  }

  /**
   * The `pci@` branch (kexec-ppc.c:547-588): no `linux,tce-base` ends the
   * node without an error.
   */
  function TceStep(cfg: Config, policy: GrowthPolicy, props: map<string, Prop>, s: Details): Step {
    if "linux,tce-base" !in props then Step(true, s)
    else match ReadULong(props, "linux,tce-base")
      case Err(_) => Step(false, s)
      case Ok(tceBase) =>
        match ReadUInt(props, "linux,tce-size")
        case Err(_) => Step(false, s)
        case Ok(tceSize) =>
          var s1 := Append(s, Span(tceBase, tceBase + tceSize), policy == GrowOnEveryAppend);
          var calls := if cfg.onCrash then [AddUsableMemRgns(tceBase, tceSize)] else [];
          Step(true, s1.(g := s1.g.(calls := s1.g.calls + calls)))
  }

  /**
   * One iteration of the directory loop (kexec-ppc.c:315-589): names outside
   * the five prefixes are skipped; a candidate whose directory does not open
   * is an error; otherwise the branch its name selects runs (the four are
   * exclusive, see `NodeKindsExclusive`), and a candidate that none selects,
   * such as `memory-controller@0`, is opened and left.
   */
  function NodeStep(cfg: Config, policy: GrowthPolicy, node: Node, s: Details): Step {
    if !IsDetailsCandidate(node.name) then Step(true, s)
    else match node.dir
      case DirFailure => Step(false, s)
      case Props(props) =>
        if IsChosenNode(node.name) then ChosenStep(cfg, props, s)
        else if IsRtasNode(node.name) then RtasStep(cfg, policy, props, s)
        else if IsMemoryNode(node.name) then MemoryStep(props, s)
        else if IsPciNode(node.name) then TceStep(cfg, policy, props, s)
        else Step(true, s)
  }

  /** The loop from `nodes` on, stopping at the first error. */
  function ScanDetailsFrom(cfg: Config, policy: GrowthPolicy, nodes: seq<Node>, s: Details): Step {
    if nodes == [] then Step(true, s)
    else
      var r := NodeStep(cfg, policy, nodes[0], s);
      if !r.ok then r else ScanDetailsFrom(cfg, policy, nodes[1..], r.st)
  }

  /** `get_devtree_details` before its sort: an unopenable root fails at once. */
  function ScanDetails(cfg: Config, policy: GrowthPolicy, t: Tree, s: Details): Step {
    if !t.rootOpens then Step(false, s) else ScanDetailsFrom(cfg, policy, t.nodes, s)
  }

  // ---------------------------------------------------------------------
  // Properties of the exclusion scan

  /** At most one of the four branches applies to any name. */
  lemma NodeKindsExclusive(name: string)
    ensures IsChosenNode(name) ==> !IsRtasNode(name) && !IsMemoryNode(name) && !IsPciNode(name)
    ensures IsRtasNode(name) ==> !IsMemoryNode(name) && !IsPciNode(name)
    ensures IsMemoryNode(name) ==> !IsPciNode(name)
  {
    StrnEqualIsPrefix(name, "chosen");
    StrnEqualIsPrefix(name, "rtas");
    StrnEqualIsPrefix(name, "pci@");
    MemoryNodeNames(name);
    if |name| > 0 {
      assert HasPrefix(name, "chosen") ==> name[0] == 'c' by {
        if HasPrefix(name, "chosen") { assert name[..6][0] == name[0]; }
      }
      assert HasPrefix(name, "rtas") ==> name[0] == 'r' by {
        if HasPrefix(name, "rtas") { assert name[..4][0] == name[0]; }
      }
      assert HasPrefix(name, "pci@") ==> name[0] == 'p' by {
        if HasPrefix(name, "pci@") { assert name[..4][0] == name[0]; }
      }
      assert HasPrefix(name, "memory@") ==> name[0] == 'm' by {
        if HasPrefix(name, "memory@") { assert name[..7][0] == name[0]; }
      }
    }
  }

  /**
   * `t` is `s` after some appends: the old exclusions are kept, the capacity
   * has not shrunk, an overrun is not forgotten, `mem_min` has not decreased
   * and `mem_max` has not increased.
   */
  ghost predicate Grew(s: Details, t: Details) {
    && |s.excludes| <= |t.excludes| && t.excludes[..|s.excludes|] == s.excludes
    && t.capacity >= s.capacity && (s.overrun ==> t.overrun)
    && t.g.memMin >= s.g.memMin && t.g.memMax <= s.g.memMax
  }

  /** No write so far went past the buffer, and the next one will not either. */
  ghost predicate Roomy(s: Details) {
    !s.overrun && |s.excludes| < s.capacity
  }

  ghost predicate BoundsKept(s: Details, t: Details) {
    t.g.memMin == s.g.memMin && t.g.memMax == s.g.memMax
  }

  lemma GrewTrans(a: Details, b: Details, c: Details)
    requires Grew(a, b) && Grew(b, c)
    ensures Grew(a, c)
  {
    assert c.excludes[..|a.excludes|] == c.excludes[..|b.excludes|][..|a.excludes|];
  }

  lemma AppendGrows(s: Details, r: Span, grows: bool)
    ensures Grew(s, Append(s, r, grows)) && BoundsKept(s, Append(s, r, grows))
    ensures grows && Roomy(s) ==> Roomy(Append(s, r, grows))
  {
    assert (s.excludes + [r])[..|s.excludes|] == s.excludes;
  }

  lemma CrashStepGrows(cfg: Config, props: map<string, Prop>, s: Details)
    ensures Grew(s, CrashStep(cfg, props, s).st)
    ensures Roomy(s) ==> Roomy(CrashStep(cfg, props, s).st)
  {
  }

  lemma InitrdStepGrows(props: map<string, Prop>, s: Details)
    ensures Grew(s, InitrdStep(props, s).st) && BoundsKept(s, InitrdStep(props, s).st)
    ensures Roomy(s) ==> Roomy(InitrdStep(props, s).st)
  {
    if ReadSized(props, "linux,initrd-start").Ok? && ReadSized(props, "linux,initrd-end").Ok? {
      AppendGrows(s, Span(ReadSized(props, "linux,initrd-start").value, ReadSized(props, "linux,initrd-end").value), true);
    }
  }

  lemma HtabStepGrows(cfg: Config, props: map<string, Prop>, s: Details)
    ensures Grew(s, HtabStep(cfg, props, s).st) && BoundsKept(s, HtabStep(cfg, props, s).st)
    ensures Roomy(s) ==> Roomy(HtabStep(cfg, props, s).st)
  {
    if "linux,htab-base" in props && ReadULong(props, "linux,htab-base").Ok? && ReadULong(props, "linux,htab-size").Ok? {
      var b: u64 := ReadULong(props, "linux,htab-base").value;
      var z: u64 := ReadULong(props, "linux,htab-size").value;
      var s1 := Append(s, Span(b, b + z), true);
      AppendGrows(s, Span(b, b + z), true);
      if cfg.reuseInitrd {
        InitrdStepGrows(props, s1);
        GrewTrans(s, s1, InitrdStep(props, s1).st);
      }
    }
  }

  lemma ChosenStepGrows(cfg: Config, props: map<string, Prop>, s: Details)
    ensures Grew(s, ChosenStep(cfg, props, s).st)
    ensures !cfg.onCrash ==> BoundsKept(s, ChosenStep(cfg, props, s).st)
    ensures Roomy(s) ==> Roomy(ChosenStep(cfg, props, s).st)
  {
    if ReadULong(props, "linux,kernel-end").Ok? {
      var s1 := Append(s, Span(0, ReadULong(props, "linux,kernel-end").value), true);
      AppendGrows(s, Span(0, ReadULong(props, "linux,kernel-end").value), true);
      var c := if cfg.onCrash then CrashStep(cfg, props, s1) else Step(true, s1);
      if cfg.onCrash {
        CrashStepGrows(cfg, props, s1);
      }
      GrewTrans(s, s1, c.st);
      if c.ok {
        HtabStepGrows(cfg, props, c.st);
        GrewTrans(s, c.st, HtabStep(cfg, props, c.st).st);
      }
    }
  }

  lemma RtasStepGrows(cfg: Config, policy: GrowthPolicy, props: map<string, Prop>, s: Details)
    ensures Grew(s, RtasStep(cfg, policy, props, s).st) && BoundsKept(s, RtasStep(cfg, policy, props, s).st)
    ensures policy == GrowOnEveryAppend && Roomy(s) ==> Roomy(RtasStep(cfg, policy, props, s).st)
  {
    if ReadUInt(props, "linux,rtas-base").Ok? && ReadUInt(props, "rtas-size").Ok? {
      var b: u32 := ReadUInt(props, "linux,rtas-base").value;
      var z: u32 := ReadUInt(props, "rtas-size").value;
      var s1 := s.(g := s.g.(rtasBase := b, rtasSize := z));
      assert s.(g := s.g.(rtasBase := b)).(g := s.(g := s.g.(rtasBase := b)).g.(rtasSize := z)) == s1;
      AppendGrows(s1, Span(b, Wrap32(b as int + z)), policy == GrowOnEveryAppend);
    }
  }

  lemma TceStepGrows(cfg: Config, policy: GrowthPolicy, props: map<string, Prop>, s: Details)
    ensures Grew(s, TceStep(cfg, policy, props, s).st) && BoundsKept(s, TceStep(cfg, policy, props, s).st)
    ensures policy == GrowOnEveryAppend && Roomy(s) ==> Roomy(TceStep(cfg, policy, props, s).st)
  {
    if "linux,tce-base" in props && ReadULong(props, "linux,tce-base").Ok? && ReadUInt(props, "linux,tce-size").Ok? {
      var b: u64 := ReadULong(props, "linux,tce-base").value;
      var z: u64 := ReadUInt(props, "linux,tce-size").value;
      AppendGrows(s, Span(b, b + z), policy == GrowOnEveryAppend);
    }
  }

  /**
   * One node only appends exclusions and leaves `mem_min`/`mem_max` alone
   * unless it is `chosen` on a crash boot; with growth after every append it
   * never writes past the buffer.
   */
  lemma NodeStepGrows(cfg: Config, policy: GrowthPolicy, node: Node, s: Details)
    ensures Grew(s, NodeStep(cfg, policy, node, s).st)
    ensures !cfg.onCrash ==> BoundsKept(s, NodeStep(cfg, policy, node, s).st)
    ensures policy == GrowOnEveryAppend && Roomy(s) ==> Roomy(NodeStep(cfg, policy, node, s).st)
  {
    if IsDetailsCandidate(node.name) && node.dir.Props? {
      var props := node.dir.props;
      if IsChosenNode(node.name) {
        ChosenStepGrows(cfg, props, s);
      } else if IsRtasNode(node.name) {
        RtasStepGrows(cfg, policy, props, s);
      } else if IsMemoryNode(node.name) {
      } else if IsPciNode(node.name) {
        TceStepGrows(cfg, policy, props, s);
      }
    }
  }

  /**
   * Over the whole scan the exclusions only grow, `mem_min` never decreases
   * and `mem_max` never increases, and without a crash boot neither changes.
   */
  lemma {:induction false} ScanGrows(cfg: Config, policy: GrowthPolicy, nodes: seq<Node>, s: Details)
    ensures Grew(s, ScanDetailsFrom(cfg, policy, nodes, s).st)
    ensures !cfg.onCrash ==> BoundsKept(s, ScanDetailsFrom(cfg, policy, nodes, s).st)
    ensures policy == GrowOnEveryAppend && Roomy(s) ==> Roomy(ScanDetailsFrom(cfg, policy, nodes, s).st)
  {
    if nodes != [] {
      var r0 := NodeStep(cfg, policy, nodes[0], s);
      NodeStepGrows(cfg, policy, nodes[0], s);
      if r0.ok {
        ScanGrows(cfg, policy, nodes[1..], r0.st);
        GrewTrans(s, r0.st, ScanDetailsFrom(cfg, policy, nodes, s).st);
      }
    }
  }

  /**
   * On a crash boot a `chosen` node that reads both crash properties leaves
   * `mem_min` at the larger of its old value and `crash_base` and `mem_max`
   * at the smaller of its old value and `crash_base + crash_size`.
   */
  lemma CrashNarrowsBounds(cfg: Config, props: map<string, Prop>, s: Details)
    requires cfg.onCrash
    requires ReadULong(props, "linux,kernel-end").Ok?
    requires ReadULong(props, "linux,crashkernel-base").Ok? && ReadULong(props, "linux,crashkernel-size").Ok?
    ensures var cb := ReadULong(props, "linux,crashkernel-base").value;
      var cs := ReadULong(props, "linux,crashkernel-size").value;
      var r := ChosenStep(cfg, props, s);
      && r.st.g.crashBase == cb && r.st.g.crashSize == cs
      && r.st.g.memMin >= s.g.memMin && r.st.g.memMin >= cb
      && (r.st.g.memMin == s.g.memMin || r.st.g.memMin == cb)
      && r.st.g.memMax <= s.g.memMax && r.st.g.memMax <= cb + cs
      && (r.st.g.memMax == s.g.memMax || r.st.g.memMax == cb + cs)
      && r.st.g.calls[|s.g.calls|..|s.g.calls| + 2]
           == [AddUsableMemRgns(0, cb + cs), Reserve(cfg.backupLimit, Wrap64(cb - cfg.backupLimit))]
  {
  }

  /**
   * A `chosen` node without `linux,htab-base` is not an error: it adds the
   * kernel range and nothing else (no hash table, no initrd); on the crash
   * path the crash-kernel reservation it reads adds no exclusion either.
   */
  lemma NoHtabSkipsRestOfChosen(cfg: Config, policy: GrowthPolicy, node: Node, s: Details)
    requires IsChosenNode(node.name) && node.dir.Props?
    requires ReadULong(node.dir.props, "linux,kernel-end").Ok?
    requires cfg.onCrash ==>
               ReadULong(node.dir.props, "linux,crashkernel-base").Ok?
               && ReadULong(node.dir.props, "linux,crashkernel-size").Ok?
    requires "linux,htab-base" !in node.dir.props
    ensures var r := NodeStep(cfg, policy, node, s);
      r.ok && r.st.excludes == s.excludes + [Span(0, ReadULong(node.dir.props, "linux,kernel-end").value)]
  {
    DetailsCandidateNames(node.name);
    StrnEqualIsPrefix(node.name, "chosen");
  }

  /** A `pci@` node without `linux,tce-base` changes nothing and is not an error. */
  lemma NoTceSkipsNode(cfg: Config, policy: GrowthPolicy, node: Node, s: Details)
    requires IsPciNode(node.name) && node.dir.Props?
    requires "linux,tce-base" !in node.dir.props
    ensures NodeStep(cfg, policy, node, s) == Step(true, s)
  {
    DetailsCandidateNames(node.name);
    StrnEqualIsPrefix(node.name, "pci@");
    NodeKindsExclusive(node.name);
  }

  /**
   * Any other failure to open `linux,htab-base` or `linux,tce-base` fails the
   * node, and so the whole scan.
   */
  lemma OpenFailureIsFatal(cfg: Config, policy: GrowthPolicy, node: Node, s: Details)
    requires node.dir.Props?
    requires (IsPciNode(node.name) && "linux,tce-base" in node.dir.props
          && node.dir.props["linux,tce-base"] == OpenFailure)
      || (IsChosenNode(node.name) && ReadULong(node.dir.props, "linux,kernel-end").Ok?
          && "linux,htab-base" in node.dir.props
          && node.dir.props["linux,htab-base"] == OpenFailure)
    ensures !NodeStep(cfg, policy, node, s).ok
  {
    DetailsCandidateNames(node.name);
    StrnEqualIsPrefix(node.name, "pci@");
    StrnEqualIsPrefix(node.name, "chosen");
    NodeKindsExclusive(node.name);
  }
}
