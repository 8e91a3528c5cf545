/**
 * The flattened view of /proc/device-tree that the planner reads: the
 * top-level node directories in directory order, each a map from property
 * name to the property file's bytes. A property missing from a node's map is
 * the ENOENT case; `OpenFailure` is a property file that exists but cannot
 * be opened (any other errno). Also the C string tests the scans apply to
 * node names, and the property readers.
 */
module DeviceTree {
  import opened ByteOrder

  datatype Prop = Bytes(data: seq<byte>) | OpenFailure

  datatype NodeDir = Props(props: map<string, Prop>) | DirFailure

  datatype Node = Node(name: string, dir: NodeDir)

  /** `rootOpens` is false when `opendir("/proc/device-tree/")` fails. */
  datatype Tree = Tree(rootOpens: bool, nodes: seq<Node>)

  datatype ReadError = NotFound | OpenFailed | ShortRead | BadSize

  datatype Read<T> = Ok(value: T) | Err(error: ReadError)

  /** `sizeof(unsigned long)` and `sizeof(unsigned int)` on 32-bit PowerPC. */
  const ULONG_BYTES: nat := 4
  const UINT_BYTES: nat := 4
  /** The `MAXBYTES` cap on one read of a memory node's `reg` (kexec-ppc.c:178). */
  const MAXBYTES: nat := 128
  /** The ceiling `rmo_top` is clamped to (kexec-ppc.c:541-542). */
  const RMO_LIMIT: u64 := 0x3000_0000

  // ---------------------------------------------------------------------
  // Node-name tests

  /**
   * `strncmp(s, t, n) == 0` for directory-entry names, which never contain
   * a NUL byte: at most `n` characters are compared, and the end of either
   * string is its terminating NUL.
   */
  function StrnEqual(s: string, t: string, n: nat): bool
    decreases n
  {
    if n == 0 then true
    else if |s| == 0 || |t| == 0 then |s| == |t|
    else s[0] == t[0] && StrnEqual(s[1..], t[1..], n - 1)
  }

  predicate HasPrefix(s: string, p: string) {
    |p| <= |s| && s[..|p|] == p
  }

  /** Comparing a name against a literal over the literal's whole length is a prefix test. */
  lemma {:induction false} StrnEqualIsPrefix(s: string, t: string)
    ensures StrnEqual(s, t, |t|) <==> HasPrefix(s, t)
  {
    if |t| > 0 && |s| > 0 {
      StrnEqualIsPrefix(s[1..], t[1..]);
      assert HasPrefix(s, t) <==> s[0] == t[0] && HasPrefix(s[1..], t[1..]) by {
        if s[0] == t[0] && HasPrefix(s[1..], t[1..]) {
          assert s[..|t|] == [s[0]] + s[1..][..|t| - 1];
          assert t == [t[0]] + t[1..];
        }
        if HasPrefix(s, t) {
          assert s[1..][..|t| - 1] == s[..|t|][1..];
        }
      }
    }
  }

  /** A memory node: `memory` or `memory@<unit-address>` (kexec-ppc.c:77-78, 231-232, 520-521). */
  predicate IsMemoryNode(name: string) {
    StrnEqual(name, "memory@", 7) || name == "memory"
  }

  /** The names `get_devtree_details` opens at all (kexec-ppc.c:316-320). */
  predicate IsDetailsCandidate(name: string) {
    StrnEqual(name, "chosen", 6) || StrnEqual(name, "memory@", 7) || StrnEqual(name, "memory", 6)
    || StrnEqual(name, "pci@", 4) || StrnEqual(name, "rtas", 4)
  }

  predicate IsChosenNode(name: string) { StrnEqual(name, "chosen", 6) }

  predicate IsRtasNode(name: string) { StrnEqual(name, "rtas", 4) }

  predicate IsPciNode(name: string) { StrnEqual(name, "pci@", 4) }

  lemma MemoryNodeNames(name: string)
    ensures IsMemoryNode(name) <==> name == "memory" || HasPrefix(name, "memory@")
  {
    StrnEqualIsPrefix(name, "memory@");
  }

  lemma DetailsCandidateNames(name: string)
    ensures IsDetailsCandidate(name) <==>
      HasPrefix(name, "chosen") || HasPrefix(name, "memory") || HasPrefix(name, "pci@") || HasPrefix(name, "rtas")
  {
    StrnEqualIsPrefix(name, "chosen");
    StrnEqualIsPrefix(name, "memory@");
    StrnEqualIsPrefix(name, "memory");
    StrnEqualIsPrefix(name, "pci@");
    StrnEqualIsPrefix(name, "rtas");
  }

  /** Every node the base scan reads is also visited by the exclusion scan. */
  lemma MemoryNodesAreDetailsCandidates(name: string)
    ensures IsMemoryNode(name) ==> IsDetailsCandidate(name)
  {
    MemoryNodeNames(name);
    DetailsCandidateNames(name);
    if HasPrefix(name, "memory@") {
      assert name[..6] == name[..7][..6];
    }
  }

  /**
   * The exclusion scan's name filter is a prefix test, so it also opens
   * nodes such as `memory-controller@0` that none of its branches handles.
   */
  lemma ControllerNodeIsOpenedButNotMemory()
    ensures IsDetailsCandidate("memory-controller@0")
    ensures !IsMemoryNode("memory-controller@0")
    ensures !IsChosenNode("memory-controller@0") && !IsRtasNode("memory-controller@0")
    ensures !IsPciNode("memory-controller@0")
  {
    DetailsCandidateNames("memory-controller@0");
    MemoryNodeNames("memory-controller@0");
    StrnEqualIsPrefix("memory-controller@0", "chosen");
    StrnEqualIsPrefix("memory-controller@0", "rtas");
    StrnEqualIsPrefix("memory-controller@0", "pci@");
    assert "memory-controller@0"[..6] == "memory";
    assert "memory-controller@0"[..7] != "memory@" by {
      assert "memory-controller@0"[6] == '-';
    }
  }

  // ---------------------------------------------------------------------
  // Property readers

  /** `fopen` of a property file: ENOENT when the node has no such property. */
  function OpenProp(props: map<string, Prop>, name: string): (r: Read<seq<byte>>)
    ensures r == Err(NotFound) <==> name !in props
    ensures r.Ok? <==> name in props && props[name].Bytes?
  {
    if name !in props then Err(NotFound)
    else match props[name]
      case OpenFailure => Err(OpenFailed)
      case Bytes(d) => Ok(d)
  }

  /**
   * `fread(&x, width, 1, file) != 1` is a failure unless the file holds at
   * least `width` bytes; otherwise `x` holds the first `width` bytes read
   * big-endian.
   */
  function ReadCells(props: map<string, Prop>, name: string, width: nat): (r: Read<nat>)
    ensures r.Ok? <==> name in props && props[name].Bytes? && |props[name].data| >= width
    ensures r.Ok? ==> r.value < Pow256(width)
    ensures r.Ok? ==> BeBytes(r.value, width) == props[name].data[..width]
  {
    match OpenProp(props, name)
    case Err(e) => Err(e)
    case Ok(d) =>
      if |d| < width then Err(ShortRead)
      else
        BeBytesOfBeUint(d[..width]);
        Ok(BeUint(d[..width]))
  }

  /** A C `unsigned long` property (32 bits on this host). */
  function ReadULong(props: map<string, Prop>, name: string): (r: Read<u32>)
    ensures r.Ok? <==> name in props && props[name].Bytes? && |props[name].data| >= ULONG_BYTES
    ensures r.Ok? ==> BeBytes(r.value, ULONG_BYTES) == props[name].data[..ULONG_BYTES]
  {
    Pow256Four();
    match ReadCells(props, name, ULONG_BYTES)
    case Err(e) => Err(e)
    case Ok(v) => Ok(v)
  }

  /** A C `unsigned int` property. */
  function ReadUInt(props: map<string, Prop>, name: string): (r: Read<u32>)
    ensures r.Ok? <==> name in props && props[name].Bytes? && |props[name].data| >= UINT_BYTES
    ensures r.Ok? ==> BeBytes(r.value, UINT_BYTES) == props[name].data[..UINT_BYTES]
  {
    Pow256Four();
    match ReadCells(props, name, UINT_BYTES)
    case Err(e) => Err(e)
    case Ok(v) => Ok(v)
  }

  /**
   * A retained-initrd bound, read at the property's own length as `stat`
   * reports it (kexec-ppc.c:445-454): an empty file makes `fread` fail; a
   * length above 8 bytes would overrun the `unsigned long long` it is read
   * into and is reported as `BadSize`.
   */
  function ReadSized(props: map<string, Prop>, name: string): (r: Read<u64>)
    ensures r.Ok? <==> name in props && props[name].Bytes? && 1 <= |props[name].data| <= 8
    ensures r.Ok? ==> r.value < Pow256(|props[name].data|)
    ensures r.Ok? ==> BeBytes(r.value, |props[name].data|) == props[name].data
  {
    match OpenProp(props, name)
    case Err(e) => Err(e)
    case Ok(d) =>
      if |d| == 0 then Err(ShortRead)
      else if |d| > 8 then Err(BadSize)
      else
        Pow256Monotone(|d|, 8);
        Pow256Eight();
        BeBytesOfBeUint(d);
        Ok(BeUint(d))
  }

  function Min(a: int, b: int): int { if a <= b then a else b }

  /**
   * `rmo_top` from a memory node's `reg` (kexec-ppc.c:527-542): at most
   * MAXBYTES bytes are read; 8 bytes are one 32-bit (base, size) pair, 16
   * bytes one 64-bit pair added with `uint64_t` wrap-around; any other count
   * is an error. The sum is clamped to RMO_LIMIT.
   */
  function DecodeRmoTop(d: seq<byte>): (r: Read<u64>)
    ensures r.Ok? <==> |d| == 8 || |d| == 16
    ensures r.Ok? ==> r.value <= RMO_LIMIT
  {
    var n := Min(|d|, MAXBYTES);
    if n == 8 then
      Ok(Min(BeUint(d[0..4]) + BeUint(d[4..8]), RMO_LIMIT))
    else if n == 16 then
      Ok(Min(Wrap64(BeUint(d[0..8]) + BeUint(d[8..16])), RMO_LIMIT))
    else Err(BadSize)
  }

  /** A 32-bit `reg` pair decodes to its clamped end address. */
  lemma RmoTopOfCells32(base: u32, size: u32)
    ensures DecodeRmoTop(BeBytes(base, 4) + BeBytes(size, 4)) == Ok(Min(base + size, RMO_LIMIT))
  {
    Pow256Four();
    var d := BeBytes(base, 4) + BeBytes(size, 4);
    assert d[0..4] == BeBytes(base, 4);
    assert d[4..8] == BeBytes(size, 4);
    BeUintOfBeBytes(base, 4);
    BeUintOfBeBytes(size, 4);
  }

  /** A 64-bit `reg` pair decodes to its clamped end address, the sum wrapping at 2^64. */
  lemma RmoTopOfCells64(base: u64, size: u64)
    ensures DecodeRmoTop(BeBytes(base, 8) + BeBytes(size, 8)) == Ok(Min(Wrap64(base + size), RMO_LIMIT))
  {
    Pow256Eight();
    var d := BeBytes(base, 8) + BeBytes(size, 8);
    assert d[0..8] == BeBytes(base, 8);
    assert d[8..16] == BeBytes(size, 8);
    BeUintOfBeBytes(base, 8);
    BeUintOfBeBytes(size, 8);
  }

  /**
   * The (start, size) words `get_base_ranges` takes from a memory node's
   * `reg` (kexec-ppc.c:264-268): the first two 32-bit cells, whatever the
   * property's length, so a 16-byte (64-bit) pair yields the high words of
   * its base.
   */
  function BaseRegWords(d: seq<byte>): (r: (u32, u32))
    requires |d| >= 8
    ensures BeBytes(r.0, 4) == d[0..4] && BeBytes(r.1, 4) == d[4..8]
  {
    Pow256Four();
    BeBytesOfBeUint(d[0..4]);
    BeBytesOfBeUint(d[4..8]);
    (BeUint(d[0..4]), BeUint(d[4..8]))
  }
}
