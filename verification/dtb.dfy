/** Early device-tree scan (axruntime/src/lib.rs, `parse_dtb`).

    The tree walk itself is not part of this model: it hands each node's
    property list to a callback, which recognises the `/memory` node
    (`device_type = "memory"`, section 3.4 of the Devicetree Specification)
    and virtio-mmio devices (`compatible = "virtio,mmio"`, section 2.3.1),
    and reads a 64-bit address and a 64-bit size from the node's `reg`
    (two cells each, section 2.3.6). Property values are compared as
    UTF-8 strings including their terminating NUL. */
module DeviceTree {
  import opened Fallible

  /** A property: its name and raw value bytes. */
  datatype Property = Property(name: string, value: seq<u8>)

  /** A node as the walk reports it. */
  datatype Node = Node(name: string, addrCells: nat, sizeCells: nat, props: seq<Property>)

  /** `DtbInfo`: the memory range and the virtio-mmio regions found. */
  datatype Region = Region(addr: u64, size: u64)
  datatype DtbInfo = DtbInfo(memoryAddr: u64, memorySize: u64, mmioRegions: seq<Region>)

  const EMPTY_INFO: DtbInfo := DtbInfo(0, 0, [])

  // ---------------------------------------------------------------------
  // Big-endian cells

  function Pow256(n: nat): (r: nat)
    ensures r >= 1
  {
    if n == 0 then 1 else 256 * Pow256(n - 1)
  }

  /** The unsigned integer whose big-endian bytes are `s`. */
  function BeValue(s: seq<u8>): (r: nat)
    ensures r < Pow256(|s|)
  {
    if s == [] then 0 else BeValue(s[..|s| - 1]) * 256 + s[|s| - 1]
  }

  /** The `n` big-endian bytes of `x`. */
  function BeBytes(x: nat, n: nat): (s: seq<u8>)
    requires x < Pow256(n)
    ensures |s| == n
  {
    if n == 0 then [] else BeBytes(x / 256, n - 1) + [x % 256]
  }

  lemma {:induction false} BeBytesValue(x: nat, n: nat)
    requires x < Pow256(n)
    ensures BeValue(BeBytes(x, n)) == x
  {
    if n > 0 {
      BeBytesValue(x / 256, n - 1);
      var s := BeBytes(x, n);
      assert s[..|s| - 1] == BeBytes(x / 256, n - 1);
    }
  }

  lemma {:induction false} BeValueBytes(s: seq<u8>)
    ensures BeBytes(BeValue(s), |s|) == s
  {
    if s != [] {
      var init := s[..|s| - 1];
      BeValueBytes(init);
      assert BeValue(s) / 256 == BeValue(init);
      assert BeValue(s) % 256 == s[|s| - 1];
      assert init + [s[|s| - 1]] == s;
    }
  }

  lemma Pow256Of8()
    ensures Pow256(8) == U64_LIMIT
  {
  }

  /** `read_be_u64(pos)`: the eight big-endian bytes at `pos`; an error when
      they do not all lie within the value. */
  function ReadBeU64(bytes: seq<u8>, pos: nat): (r: Option<u64>)
    ensures r.Some? <==> pos + 8 <= |bytes|
    ensures r.Some? ==> BeBytes(r.value, 8) == bytes[pos..pos + 8]
  {
    if pos + 8 <= |bytes| then
      var cell := bytes[pos..pos + 8];
      Pow256Of8();
      BeValueBytes(cell);
      Some(BeValue(cell))
    else None
  }

  /** Reading back a written cell gives the value written. */
  lemma ReadWrittenCell(prefix: seq<u8>, x: u64, suffix: seq<u8>)
    ensures ReadBeU64(prefix + BeBytes(x, 8) + suffix, |prefix|) == Some(x)
  {
    Pow256Of8();
    var bytes := prefix + BeBytes(x, 8) + suffix;
    assert bytes[|prefix|..|prefix| + 8] == BeBytes(x, 8);
    BeBytesValue(x, 8);
  }

  // ---------------------------------------------------------------------
  // UTF-8

  predicate IsContinuation(b: u8) {
    0x80 <= b <= 0xBF
  }

  /** The length of the well-formed UTF-8 sequence that starts `s`, or 0 if
      `s` does not start with one (the Unicode Standard, Table 3-7). */
  function Utf8SeqLen(s: seq<u8>): (n: nat)
    requires s != []
    ensures n <= |s| && n <= 4
  {
    var b0 := s[0];
    if b0 <= 0x7F then 1
    else if 0xC2 <= b0 <= 0xDF then
      (if |s| >= 2 && IsContinuation(s[1]) then 2 else 0)
    else if 0xE0 <= b0 <= 0xEF then
      var lo := if b0 == 0xE0 then 0xA0 else 0x80;
      var hi := if b0 == 0xED then 0x9F else 0xBF;
      (if |s| >= 3 && lo <= s[1] <= hi && IsContinuation(s[2]) then 3 else 0)
    else if 0xF0 <= b0 <= 0xF4 then
      var lo := if b0 == 0xF0 then 0x90 else 0x80;
      var hi := if b0 == 0xF4 then 0x8F else 0xBF;
      (if |s| >= 4 && lo <= s[1] <= hi && IsContinuation(s[2]) && IsContinuation(s[3])
       then 4 else 0)
    else 0
  }

  /** `str::from_utf8` succeeds. */
  predicate Utf8Valid(s: seq<u8>)
    decreases |s|
  {
    s == [] || (Utf8SeqLen(s) > 0 && Utf8Valid(s[Utf8SeqLen(s)..]))
  }

  /** `str::from_utf8(bytes).map_or_else(|_| false, |v| v == lit)`. */
  predicate StrEquals(bytes: seq<u8>, lit: seq<u8>) {
    Utf8Valid(bytes) && bytes == lit
  }

  predicate IsAscii(s: seq<u8>) {
    forall i :: 0 <= i < |s| ==> s[i] <= 0x7F
  }

  lemma {:induction false} AsciiIsUtf8(s: seq<u8>)
    requires IsAscii(s)
    ensures Utf8Valid(s)
    decreases |s|
  {
    if s != [] {
      assert Utf8SeqLen(s) == 1;
      AsciiIsUtf8(s[1..]);
    }
  }

  /** Against an ASCII literal, the UTF-8 comparison is plain byte equality:
      invalid UTF-8 never equals it. */
  lemma StrEqualsAscii(bytes: seq<u8>, lit: seq<u8>)
    requires IsAscii(lit)
    ensures StrEquals(bytes, lit) <==> bytes == lit
  {
    if bytes == lit {
      AsciiIsUtf8(lit);
    }
  }

  function AsciiBytes(s: string): (b: seq<u8>)
    requires forall i :: 0 <= i < |s| ==> s[i] as int < 0x80
    ensures |b| == |s| && IsAscii(b)
  {
    seq(|s|, i requires 0 <= i < |s| => s[i] as int)
  }

  const MEMORY_TYPE: seq<u8> := AsciiBytes("memory\0")
  const VIRTIO_MMIO: seq<u8> := AsciiBytes("virtio,mmio\0")

  // ---------------------------------------------------------------------
  // The callback

  /** What the loop over the properties leaves behind. */
  datatype Scan = Scan(isMemory: bool, isMmio: bool, reg: Option<seq<u8>>)

  /** One turn of the loop: a property changes at most the flag of its own
      name, and a `device_type` or `compatible` value matches exactly when
      its bytes are the expected literal. */
  function ScanStep(f: Scan, p: Property): (r: Scan)
    ensures p.name != "device_type" ==> r.isMemory == f.isMemory
    ensures p.name != "compatible" ==> r.isMmio == f.isMmio
    ensures p.name != "reg" ==> r.reg == f.reg
    ensures p.name == "device_type" ==> (r.isMemory <==> p.value == MEMORY_TYPE)
    ensures p.name == "compatible" ==> (r.isMmio <==> p.value == VIRTIO_MMIO)
    ensures p.name == "reg" ==> r.reg == Some(p.value)
  {
    StrEqualsAscii(p.value, MEMORY_TYPE);
    StrEqualsAscii(p.value, VIRTIO_MMIO);
    if p.name == "device_type" then f.(isMemory := StrEquals(p.value, MEMORY_TYPE))
    else if p.name == "compatible" then f.(isMmio := StrEquals(p.value, VIRTIO_MMIO))
    else if p.name == "reg" then f.(reg := Some(p.value))
    else f
  }

  /** The `for prop in props` loop, run from the flags `f`: each flag ends as
      the last property of its name decides, or as `f` had it if there is
      none. */
  function ScanFrom(f: Scan, props: seq<Property>): (r: Scan)
    ensures r.isMemory == (if LastValue(props, "device_type").Some?
                           then LastValue(props, "device_type") == Some(MEMORY_TYPE)
                           else f.isMemory)
    ensures r.isMmio == (if LastValue(props, "compatible").Some?
                         then LastValue(props, "compatible") == Some(VIRTIO_MMIO)
                         else f.isMmio)
    ensures r.reg == (if LastValue(props, "reg").Some? then LastValue(props, "reg") else f.reg)
    decreases |props|
  {
    if props == [] then f
    else
      LastValueCons(props[0], props[1..], "device_type");
      LastValueCons(props[0], props[1..], "compatible");
      LastValueCons(props[0], props[1..], "reg");
      assert [props[0]] + props[1..] == props;
      ScanFrom(ScanStep(f, props[0]), props[1..])
  }

  /** The loop from cleared flags classifies a node exactly as its last
      `device_type`, `compatible` and `reg` properties say. */
  function ScanProps(props: seq<Property>): (r: Scan)
    ensures r.isMemory <==> DeclaresMemory(props)
    ensures r.isMmio <==> DeclaresVirtioMmio(props)
    ensures r.reg == LastValue(props, "reg")
  {
    ScanFrom(Scan(false, false, None), props)
  }

  /** The value of the last property called `name`, if there is one. */
  function LastValue(props: seq<Property>, name: string): Option<seq<u8>>
    decreases |props|
  {
    if props == [] then None
    else if props[|props| - 1].name == name then Some(props[|props| - 1].value)
    else LastValue(props[..|props| - 1], name)
  }

  /** `LastValue` finds nothing exactly when no property has the name, and
      otherwise the value of a property with that name after which no
      property has it. */
  lemma {:induction false} LastValueSpec(props: seq<Property>, name: string)
    ensures LastValue(props, name).None? <==> forall i :: 0 <= i < |props| ==> props[i].name != name
    ensures LastValue(props, name).Some? ==>
      exists i :: 0 <= i < |props| && props[i] == Property(name, LastValue(props, name).value)
                  && forall j :: i < j < |props| ==> props[j].name != name
    decreases |props|
  {
    if props != [] && props[|props| - 1].name != name {
      var init := props[..|props| - 1];
      LastValueSpec(init, name);
      assert forall j :: 0 <= j < |init| ==> init[j] == props[j];
      if LastValue(init, name).Some? {
        var i :| 0 <= i < |init| && init[i] == Property(name, LastValue(init, name).value)
                 && forall j :: i < j < |init| ==> init[j].name != name;
        assert props[i] == Property(name, LastValue(props, name).value);
      }
    }
  }

  /** The node declares itself a `/memory` node. */
  predicate DeclaresMemory(props: seq<Property>) {
    LastValue(props, "device_type") == Some(MEMORY_TYPE)
  }

  /** The node is a virtio-mmio device. */
  predicate DeclaresVirtioMmio(props: seq<Property>) {
    LastValue(props, "compatible") == Some(VIRTIO_MMIO)
  }

  /** The last value in `[p] + rest` is the last value in `rest`, or `p`'s
      value when `rest` has no property of that name. */
  lemma {:induction false} LastValueCons(p: Property, rest: seq<Property>, name: string)
    ensures LastValue([p] + rest, name) ==
      (if LastValue(rest, name).Some? then LastValue(rest, name)
       else if p.name == name then Some(p.value) else None)
    decreases |rest|
  {
    var s := [p] + rest;
    if rest == [] {
      assert s[..|s| - 1] == [];
    } else {
      assert s[|s| - 1] == rest[|rest| - 1];
      assert s[..|s| - 1] == [p] + rest[..|rest| - 1];
      LastValueCons(p, rest[..|rest| - 1], name);
    }
  }

  function Unwrap<T>(o: Option<T>): Result<T> {
    match o
    case Some(v) => Ok(v)
    case None => Fatal(UnwrapErr)
  }

  /** The two `assert!`s on the cell counts. */
  function CheckCells(node: Node): Result<()> {
    if node.addrCells != 2 then Fatal(AssertionFailed("addr_cells == 2"))
    else if node.sizeCells != 2 then Fatal(AssertionFailed("size_cells == 2"))
    else Ok(())
  }

  /** The address and size cells at the start of `reg`. */
  function ReadRegion(reg: seq<u8>): Result<Region> {
    var addr :- Unwrap(ReadBeU64(reg, 0));
    var size :- Unwrap(ReadBeU64(reg, 8));
    Ok(Region(addr, size))
  }

  /** The callback `cb`: classify, then update the accumulator, memory
      first, then the mmio list. A completed call has set the memory range
      from a memory node's readable `reg` (and otherwise kept it) and
      appended the node's region, if any, to the mmio list; it panics
      exactly when a memory or virtio-mmio node has the wrong cell counts or
      a `reg` too short for both cells. */
  function NodeCallback(acc: DtbInfo, node: Node): (r: Result<DtbInfo>)
    ensures r.Ok? ==> r.value.mmioRegions == acc.mmioRegions + NodeRegions(node)
    ensures r.Ok? && DeclaresMemory(node.props) && RegReadable(node.props) ==>
              r.value.memoryAddr == RegRegion(node.props).addr
              && r.value.memorySize == RegRegion(node.props).size
    ensures r.Ok? && !(DeclaresMemory(node.props) && RegReadable(node.props)) ==>
              r.value.memoryAddr == acc.memoryAddr && r.value.memorySize == acc.memorySize
    ensures r.Fatal? <==> NodeFails(node)
  {
    var f := ScanProps(node.props);
    var acc1 :-
      if !f.isMemory then Ok(acc)
      else
        var _ :- CheckCells(node);
        if f.reg.None? then Ok(acc)
        else
          var r :- ReadRegion(f.reg.value);
          Ok(acc.(memoryAddr := r.addr, memorySize := r.size));
    if !f.isMmio then Ok(acc1)
    else
      var _ :- CheckCells(node);
      if f.reg.None? then Ok(acc1)
      else
        var r :- ReadRegion(f.reg.value);
        Ok(acc1.(mmioRegions := acc1.mmioRegions + [r]))
  }

  /** A memory or virtio-mmio node with cell counts other than two and two,
      or with a `reg` too short for both cells: the callback panics on it,
      whatever the accumulator. */
  predicate NodeFails(node: Node) {
    && (DeclaresMemory(node.props) || DeclaresVirtioMmio(node.props))
    && (|| node.addrCells != 2
        || node.sizeCells != 2
        || (LastValue(node.props, "reg").Some? && |LastValue(node.props, "reg").value| < 16))
  }

  /** `parse_dtb`, given the nodes in the order the walk visits them: every
      node goes through the callback, starting from the empty accumulator;
      the first panic ends the scan. A scan that completes reports the
      region of every virtio-mmio node with a readable `reg`, in visiting
      order, and no other, and the memory range of the last memory node with
      a readable `reg`, or (0, 0) if there is none; it panics exactly when
      some node fails. */
  function ParseNodes(nodes: seq<Node>): (r: Result<DtbInfo>)
    ensures r.Ok? ==> r.value.mmioRegions == MmioRegionsOf(nodes)
    ensures r.Ok? ==> Region(r.value.memoryAddr, r.value.memorySize) == LastMemory(EMPTY_INFO, nodes)
    ensures r.Fatal? <==> exists i :: 0 <= i < |nodes| && NodeFails(nodes[i])
  {
    assert [] + MmioRegionsOf(nodes) == MmioRegionsOf(nodes);
    ParseFrom(EMPTY_INFO, nodes)
  }

  /** The walk from accumulator `acc`: a completed walk has appended, after
      the regions `acc` held, exactly the regions of the visited nodes, and
      holds the range the last memory node set, or `acc`'s if none did; the
      walk panics exactly when some node fails. */
  function ParseFrom(acc: DtbInfo, nodes: seq<Node>): (r: Result<DtbInfo>)
    ensures r.Ok? ==> r.value.mmioRegions == acc.mmioRegions + MmioRegionsOf(nodes)
    ensures r.Ok? ==> Region(r.value.memoryAddr, r.value.memorySize) == LastMemory(acc, nodes)
    ensures r.Fatal? <==> exists i :: 0 <= i < |nodes| && NodeFails(nodes[i])
    decreases |nodes|
  {
    if nodes == [] then
      assert acc.mmioRegions + [] == acc.mmioRegions;
      Ok(acc)
    else
      assert forall i :: 1 <= i < |nodes| ==> nodes[i] == nodes[1..][i - 1];
      var acc' :- NodeCallback(acc, nodes[0]);
      AppendAssoc(acc.mmioRegions, NodeRegions(nodes[0]), MmioRegionsOf(nodes[1..]));
      LastMemoryCons(acc, acc', nodes[0], nodes[1..]);
      assert [nodes[0]] + nodes[1..] == nodes;
      ParseFrom(acc', nodes[1..])
  }

  // ---------------------------------------------------------------------
  // Properties of the callback

  /** A `reg` long enough for both cells. */
  predicate RegReadable(props: seq<Property>) {
    LastValue(props, "reg").Some? && |LastValue(props, "reg").value| >= 16
  }

  function RegRegion(props: seq<Property>): (r: Region)
    requires RegReadable(props)
    ensures var reg := LastValue(props, "reg").value;
      BeBytes(r.addr, 8) == reg[0..8] && BeBytes(r.size, 8) == reg[8..16]
  {
    var reg := LastValue(props, "reg").value;
    Region(ReadBeU64(reg, 0).value, ReadBeU64(reg, 8).value)
  }

  /** A node that is neither memory nor virtio-mmio, or that has no `reg`
      and the expected cell counts, leaves the accumulator unchanged. */
  lemma UnclassifiedUnchanged(acc: DtbInfo, node: Node)
    requires (!DeclaresMemory(node.props) && !DeclaresVirtioMmio(node.props))
             || (LastValue(node.props, "reg").None? && node.addrCells == 2 && node.sizeCells == 2)
    ensures NodeCallback(acc, node) == Ok(acc)
  {
  }

  /** A memory node with the expected cells and a readable `reg` sets the
      memory range from its two cells, whatever else it declares; the mmio
      list grows only if the node is also virtio-mmio. */
  lemma MemoryNodeSetsRange(acc: DtbInfo, node: Node)
    requires DeclaresMemory(node.props)
    requires node.addrCells == 2 && node.sizeCells == 2 && RegReadable(node.props)
    ensures NodeCallback(acc, node).Ok?
    ensures var r := RegRegion(node.props);
      NodeCallback(acc, node).value.memoryAddr == r.addr
      && NodeCallback(acc, node).value.memorySize == r.size
    ensures !DeclaresVirtioMmio(node.props) ==>
      NodeCallback(acc, node).value.mmioRegions == acc.mmioRegions
    ensures DeclaresVirtioMmio(node.props) ==>
      NodeCallback(acc, node).value.mmioRegions == acc.mmioRegions + [RegRegion(node.props)]
  {
  }

  /** A virtio-mmio node with the expected cells and a readable `reg`
      appends exactly one region at the end; nothing else changes. */
  lemma MmioNodeAppendsRegion(acc: DtbInfo, node: Node)
    requires DeclaresVirtioMmio(node.props) && !DeclaresMemory(node.props)
    requires node.addrCells == 2 && node.sizeCells == 2 && RegReadable(node.props)
    ensures NodeCallback(acc, node) ==
      Ok(acc.(mmioRegions := acc.mmioRegions + [RegRegion(node.props)]))
  {
  }

  /** A memory or virtio-mmio node whose cells are not two and two fails the
      assertion, whatever its `reg`. */
  lemma WrongCellsFatal(acc: DtbInfo, node: Node)
    requires DeclaresMemory(node.props) || DeclaresVirtioMmio(node.props)
    requires node.addrCells != 2 || node.sizeCells != 2
    ensures NodeCallback(acc, node).Fatal?
    ensures NodeCallback(acc, node).panic.AssertionFailed?
  {
  }

  /** A memory or virtio-mmio node whose `reg` is shorter than 16 bytes
      fails the `unwrap`. */
  lemma ShortRegFatal(acc: DtbInfo, node: Node)
    requires DeclaresMemory(node.props) || DeclaresVirtioMmio(node.props)
    requires node.addrCells == 2 && node.sizeCells == 2
    requires LastValue(node.props, "reg").Some? && |LastValue(node.props, "reg").value| < 16
    ensures NodeCallback(acc, node) == Fatal(UnwrapErr)
  {
  }

  /** The region a node contributes: one for a virtio-mmio node with a
      readable `reg`, none otherwise. */
  function NodeRegions(node: Node): seq<Region> {
    if DeclaresVirtioMmio(node.props) && RegReadable(node.props)
    then [RegRegion(node.props)] else []
  }

  /** The regions found by a scan, in the order their nodes were visited. */
  function MmioRegionsOf(nodes: seq<Node>): seq<Region>
    decreases |nodes|
  {
    if nodes == [] then [] else NodeRegions(nodes[0]) + MmioRegionsOf(nodes[1..])
  }

  /** The node sets the memory range: it is a memory node with a `reg`
      long enough for both cells. */
  predicate SetsMemory(node: Node) {
    DeclaresMemory(node.props) && RegReadable(node.props)
  }

  /** The reference for the reported memory range, read from the back: the
      range of the last node that sets it, or `acc`'s range if none does. */
  function LastMemory(acc: DtbInfo, nodes: seq<Node>): Region
    decreases |nodes|
  {
    if nodes == [] then Region(acc.memoryAddr, acc.memorySize)
    else
      var last := nodes[|nodes| - 1];
      if SetsMemory(last) then RegRegion(last.props)
      else LastMemory(acc, nodes[..|nodes| - 1])
  }

  /** With no node that sets it, the reference range is `acc`'s. */
  lemma {:induction false} LastMemoryNone(acc: DtbInfo, nodes: seq<Node>)
    requires forall i :: 0 <= i < |nodes| ==> !SetsMemory(nodes[i])
    ensures LastMemory(acc, nodes) == Region(acc.memoryAddr, acc.memorySize)
    decreases |nodes|
  {
    if nodes != [] {
      var init := nodes[..|nodes| - 1];
      assert forall j :: 0 <= j < |init| ==> init[j] == nodes[j];
      LastMemoryNone(acc, init);
    }
  }

  /** Otherwise it is the range of the last node that sets it. */
  lemma {:induction false} LastMemoryFound(acc: DtbInfo, nodes: seq<Node>, k: nat)
    requires k < |nodes| && SetsMemory(nodes[k])
    requires forall j :: k < j < |nodes| ==> !SetsMemory(nodes[j])
    ensures LastMemory(acc, nodes) == RegRegion(nodes[k].props)
    decreases |nodes|
  {
    var n := |nodes| - 1;
    if k < n {
      var init := nodes[..n];
      assert init[k] == nodes[k];
      assert forall j :: k < j < |init| ==> init[j] == nodes[j];
      LastMemoryFound(acc, init, k);
    }
  }

  /** Visiting `node` first and then `rest` from `acc` ends with the range of
      visiting `rest` from any accumulator whose range is the one `node`
      leaves behind. */
  lemma {:induction false} LastMemoryCons(acc: DtbInfo, acc1: DtbInfo, node: Node, rest: seq<Node>)
    requires Region(acc1.memoryAddr, acc1.memorySize) ==
               (if SetsMemory(node) then RegRegion(node.props) else Region(acc.memoryAddr, acc.memorySize))
    ensures LastMemory(acc, [node] + rest) == LastMemory(acc1, rest)
    decreases |rest|
  {
    var s := [node] + rest;
    if rest == [] {
      assert s[..|s| - 1] == [];
    } else {
      assert s[|s| - 1] == rest[|rest| - 1];
      assert s[..|s| - 1] == [node] + rest[..|rest| - 1];
      LastMemoryCons(acc, acc1, node, rest[..|rest| - 1]);
    }
  }

  /** A scan with no node at all reports the initial accumulator. */
  lemma ParseNoNodes()
    ensures ParseNodes([]) == Ok(DtbInfo(0, 0, []))
  {
  }

  /** A completed scan that met no memory node with a readable `reg`
      reports the initial range (0, 0). */
  lemma ParseWithoutMemoryNode(nodes: seq<Node>)
    requires ParseNodes(nodes).Ok?
    requires forall i :: 0 <= i < |nodes| ==> !SetsMemory(nodes[i])
    ensures ParseNodes(nodes).value.memoryAddr == 0 && ParseNodes(nodes).value.memorySize == 0
  {
    LastMemoryNone(EMPTY_INFO, nodes);
  }

  lemma AppendAssoc<T>(a: seq<T>, b: seq<T>, c: seq<T>)
    ensures a + b + c == a + (b + c)
  {
  }
}
