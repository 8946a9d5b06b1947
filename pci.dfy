/*
 * The Intel-method PCI bus driver (uspace/drv/pciintel/pci.c): the
 * configuration address of Configuration Mechanism #1 (section 3.2.2.3.2
 * of the PCI Local Bus Specification 3.0), base address register (BAR)
 * decoding and sizing (section 6.2.5.1 of the same specification), the
 * function's hardware-resource list, and the rule by which a bus is
 * scanned for devices and functions.
 *
 * The configuration space is an input: the byte at each register offset of
 * each function (`Space`). A configuration access selects the double word
 * through CONF_ADDR and the byte within it through the data-port offset.
 * The device's answer to BAR sizing (the value read back after all ones
 * are written) is an input too (`SizeMask`). Port I/O, locking and the
 * device framework are not modelled.
 */
module Pci {
  import opened Wrappers
  import opened Powers

  type Byte = b: nat | b < 0x100
  type Word = w: nat | w < 0x1_0000_0000

  /*
   * Configuration-space register offsets, from the type 0 and type 1 header
   * layouts of section 6.1 of the PCI Local Bus Specification 3.0 (the
   * driver's pci.h, which names them, is not part of this model).
   */
  const PCI_VENDOR_ID: nat := 0x00
  const PCI_DEVICE_ID: nat := 0x02
  const PCI_HEADER_TYPE: nat := 0x0e
  const PCI_BASE_ADDR_0: nat := 0x10
  const PCI_BASE_ADDR_5: nat := 0x24
  const PCI_BRIDGE_SEC_BUS_NUM: nat := 0x19
  const PCI_BRIDGE_INT_LINE: nat := 0x3c
  const PCI_HEADER_TYPE_BRIDGE: nat := 1
  const PCI_HEADER_TYPE_CARDBUS: nat := 2

  /** A function's place in the hierarchy: bus, device and function number. */
  datatype Location = Location(bus: nat, dev: nat, fn: nat)
  {
    predicate Valid() { bus < 0x100 && dev < 32 && fn < 8 }
  }

  /* ---------------------------------------------------------------------- */
  /* Configuration Mechanism #1                                              */
  /* ---------------------------------------------------------------------- */

  /** CONF_ADDR: enable bit 31, bus in 23:16, device in 15:11, function in 10:8, register in 7:2. */
  function ConfAddr(loc: Location, reg: nat): (r: Word)
    requires loc.Valid() && reg < 0x100
    ensures r >= 0x8000_0000 && r % 4 == 0
  {
    0x8000_0000 + loc.bus * 0x1_0000 + loc.dev * 0x800 + loc.fn * 0x100 + (reg - reg % 4)
  }

  /** The fields of a configuration address, as the host bridge reads them. */
  datatype ConfFields = ConfFields(enable: bool, reserved: nat, bus: nat, dev: nat, fn: nat,
                                   reg: nat, kind: nat)

  function FieldsOf(a: Word): ConfFields {
    ConfFields(a / 0x8000_0000 == 1, (a / 0x100_0000) % 0x80, (a / 0x1_0000) % 0x100,
               (a / 0x800) % 0x20, (a / 0x100) % 8, (a % 0x100) / 4 * 4, a % 4)
  }

  /**
   * The host bridge decodes from CONF_ADDR exactly the location and the
   * double-word-aligned register the driver asked for, with the enable bit
   * set and the reserved bits and the type bits zero.
   */
  lemma ConfAddrDecodes(loc: Location, reg: nat)
    requires loc.Valid() && reg < 0x100
    ensures FieldsOf(ConfAddr(loc, reg)) == ConfFields(true, 0, loc.bus, loc.dev, loc.fn, reg - reg % 4, 0)
  {
    var a := ConfAddr(loc, reg);
    var r := reg - reg % 4;
    var x3 := loc.bus + 0x100 * 0x80;
    var x2 := loc.dev + 0x20 * x3;
    var x1 := loc.fn + 8 * x2;
    Peel(r, x1, 0x100);
    Peel(r + 0x100 * loc.fn, x2, 0x800);
    Peel(r + 0x100 * loc.fn + 0x800 * loc.dev, x3, 0x1_0000);
    Peel(r + 0x100 * loc.fn + 0x800 * loc.dev + 0x1_0000 * loc.bus, 0x80, 0x100_0000);
    Peel(r + 0x100 * loc.fn + 0x800 * loc.dev + 0x1_0000 * loc.bus, 1, 0x8000_0000);
    Peel(loc.fn, x2, 8);
    Peel(loc.dev, x3, 0x20);
    Peel(loc.bus, 0x80, 0x100);
    Peel(0, reg / 4 + 0x40 * x1, 4);
    Peel(0, reg / 4, 4);
  }

  lemma {:induction false} MulAtLeast(d: nat, k: nat)
    requires k >= 1
    ensures d * k >= d
  {
    if k > 1 {
      MulAtLeast(d, k - 1);
      assert d * k == d * (k - 1) + d;
    }
  }

  /** Division by `d` splits `low + d * high` back into its digit and the rest. */
  lemma Peel(low: nat, high: nat, d: nat)
    requires 0 < d && low < d
    ensures (low + d * high) / d == high && (low + d * high) % d == low
  {
    var n := low + d * high;
    var q, m := n / d, n % d;
    assert d * q + m == n;
    if q > high {
      assert d * q == d * high + d * (q - high);
      MulAtLeast(d, q - high);
      assert false;
    } else if q < high {
      assert d * high == d * q + d * (high - q);
      MulAtLeast(d, high - q);
      assert false;
    }
  }

  /** `reg & 3`: the byte of the selected double word at which the data port is accessed. */
  function DataPortOffset(reg: nat): (r: nat)
    ensures r < 4
    ensures reg - reg % 4 + r == reg
  {
    reg % 4
  }

  /** The configuration spaces of all functions: the byte at each register offset. */
  type Space = (Location, nat) -> Byte

  /** The byte a configuration access reaches: the selected double word, at the data-port offset. */
  function ConfByte(space: Space, loc: Location, reg: nat, i: nat): Byte {
    space(loc, (reg - reg % 4) + DataPortOffset(reg) + i)
  }

  /** pci_conf_read_8. */
  function ConfRead8(space: Space, loc: Location, reg: nat): Byte {
    ConfByte(space, loc, reg, 0)
  }

  /** pci_conf_read_16: two bytes, least significant first (the port is little-endian). */
  function ConfRead16(space: Space, loc: Location, reg: nat): nat {
    ConfByte(space, loc, reg, 0) + 0x100 * ConfByte(space, loc, reg, 1)
  }

  /** pci_conf_read_32. */
  function ConfRead32(space: Space, loc: Location, reg: nat): Word {
    ConfByte(space, loc, reg, 0) + 0x100 * (ConfByte(space, loc, reg, 1)
      + 0x100 * (ConfByte(space, loc, reg, 2) + 0x100 * ConfByte(space, loc, reg, 3)))
  }

  /** A configuration read of any width starts at exactly the register asked for. */
  lemma ConfReadsRegister(space: Space, loc: Location, reg: nat)
    ensures ConfRead8(space, loc, reg) == space(loc, reg)
    ensures ConfRead16(space, loc, reg) == space(loc, reg) + 0x100 * space(loc, reg + 1)
    ensures ConfRead16(space, loc, reg) < 0x1_0000
    ensures ConfRead32(space, loc, reg)
            == space(loc, reg) + 0x100 * (space(loc, reg + 1)
               + 0x100 * (space(loc, reg + 2) + 0x100 * space(loc, reg + 3)))
  {
  }

  /* ---------------------------------------------------------------------- */
  /* Base address registers                                                  */
  /* ---------------------------------------------------------------------- */

  /** pci_bar_mask_to_size: `((mask & 0xfffffff0) ^ 0xffffffff) + 1` in 32-bit arithmetic. */
  function BarMaskToSize(mask: Word): (r: Word)
    ensures mask - mask % 16 == 0 ==> r == 0
    ensures mask - mask % 16 != 0 ==> r == 0x1_0000_0000 - (mask - mask % 16)
  {
    ((0xffff_ffff - (mask - mask % 16)) + 1) % 0x1_0000_0000
  }

  /**
   * A BAR that decodes 2^k bytes (4 <= k < 32) answers sizing with ones in
   * every address bit from bit k up and zeros below; the size computed from
   * that answer is 2^k, whatever the four low flag bits are.
   */
  lemma BarSizeIsPowerOfTwo(mask: Word, k: nat, low: nat)
    requires 4 <= k < 32 && low < 16
    requires mask + Pow2(k) == 0x1_0000_0000 + low
    ensures BarMaskToSize(mask) == Pow2(k)
  {
    Pow2Values();
    Pow2Add(4, k - 4);
    Pow2Add(k - 4, 32 - k);
    Pow2Add(4, 28);
    var q := Pow2(k - 4);
    var p := Pow2(32 - k);
    assert Pow2(k) == 16 * q;
    assert q * p == 0x1000_0000;
    FactorBound(q, p);
    SizeFromMask(mask, q, low);
  }

  lemma FactorBound(q: nat, p: nat)
    requires p >= 2 && q * p == 0x1000_0000
    ensures q < 0x1000_0000
  {
    assert q * p == q * 2 + q * (p - 2);
  }

  /** The arithmetic of BarSizeIsPowerOfTwo once the size is written as 16 * q. */
  lemma SizeFromMask(mask: Word, q: nat, low: nat)
    requires low < 16 && 0 < q < 0x1000_0000 && mask + 16 * q == 0x1_0000_0000 + low
    ensures BarMaskToSize(mask) == 16 * q
  {
    var x := 0x1000_0000 - q;
    assert mask == 16 * x + low;
  }

  /** What a BAR describes, by its low bits. */
  datatype BarKind = Io | Mem32 | Mem64 | Reserved

  /** Bit 0 set is I/O space; otherwise bits 2:1 give the memory type: 0 is 32-bit, 2 is 64-bit, 1 and 3 are reserved. */
  function Classify(val: Word): (k: BarKind)
    ensures k == Io <==> val % 2 == 1
    ensures k == Mem32 <==> val % 2 == 0 && (val / 2) % 4 == 0
    ensures k == Mem64 <==> val % 2 == 0 && (val / 2) % 4 == 2
  {
    if val % 2 == 1 then Io
    else if (val / 2) % 4 == 0 then Mem32
    else if (val / 2) % 4 == 2 then Mem64
    else Reserved
  }

  /** The BAR's base address bits: the value with its four flag bits cleared. */
  function BarBase(val: Word): (r: Word)
    ensures r % 16 == 0 && r <= val < r + 16
  {
    val - val % 16
  }

  /** A 64-bit address from its high and low words. */
  function Address64(hi: Word, lo: Word): (r: nat)
    ensures r % 0x1_0000_0000 == lo && r / 0x1_0000_0000 == hi
  {
    hi * 0x1_0000_0000 + lo
  }

  /** The configuration answer to BAR sizing: the value read back from each BAR after all ones are written. */
  type SizeMask = (Location, nat) -> Word

  /** A hardware resource of a function; ranges are always little-endian. */
  datatype HwResource =
    | IoRange(address: nat, size: nat)
    | MemRange(address: nat, size: nat)
    | Interrupt(irq: nat)

  /** The offset of the BAR after the one at `addr`: 64-bit memory BARs take two registers. */
  function NextBar(space: Space, loc: Location, addr: nat): (r: nat)
    ensures r == addr + 4 || r == addr + 8
    ensures r == addr + 8 <==> Classify(ConfRead32(space, loc, addr)) == Mem64
  {
    if Classify(ConfRead32(space, loc, addr)) == Mem64 then addr + 8 else addr + 4
  }

  /**
   * The resource the BAR at `addr` describes: none for a reserved memory
   * type; otherwise its base address (for a 64-bit BAR the next register is
   * the high word) and the size computed from the sizing answer. A zero
   * address is still reported.
   */
  function BarResource(space: Space, mask: SizeMask, loc: Location, addr: nat): (r: Option<HwResource>)
    ensures r.None? <==> Classify(ConfRead32(space, loc, addr)) == Reserved
    ensures r.Some? ==> (r.value.IoRange? <==> Classify(ConfRead32(space, loc, addr)) == Io)
    ensures r.Some? ==> !r.value.Interrupt?
    ensures r.Some? ==> r.value.address % 0x1_0000_0000 == BarBase(ConfRead32(space, loc, addr))
    ensures r.Some? ==> r.value.size == BarMaskToSize(mask(loc, addr))
  {
    BarOf(ConfRead32(space, loc, addr), ConfRead32(space, loc, addr + 4), BarMaskToSize(mask(loc, addr)))
  }

  /** The resource of a BAR holding `val`, with `hi` in the register after it and the given size. */
  function BarOf(val: Word, hi: Word, size: nat): (r: Option<HwResource>)
    ensures r.None? <==> Classify(val) == Reserved
    ensures r.Some? ==> (r.value.IoRange? <==> Classify(val) == Io)
    ensures r.Some? ==> !r.value.Interrupt?
    ensures r.Some? ==> r.value.address % 0x1_0000_0000 == BarBase(val) && r.value.size == size
  {
    match Classify(val)
    case Reserved => None
    case Io => Some(IoRange(BarBase(val), size))
    case Mem32 => Some(MemRange(BarBase(val), size))
    case Mem64 => Some(MemRange(Address64(hi, BarBase(val)), size))
  }

  function Entries(r: Option<HwResource>): seq<HwResource> {
    match r
    case None => []
    case Some(res) => [res]
  }

  /** The resources pci_read_bars adds, starting from the BAR at `addr`. */
  function Bars(space: Space, mask: SizeMask, loc: Location, addr: nat): (r: seq<HwResource>)
    ensures forall res :: res in r ==> !res.Interrupt?
    decreases PCI_BASE_ADDR_5 + 4 - addr
  {
    if addr > PCI_BASE_ADDR_5 then []
    else Entries(BarResource(space, mask, loc, addr)) + Bars(space, mask, loc, NextBar(space, loc, addr))
  }

  /* ---------------------------------------------------------------------- */
  /* The hardware-resource list                                              */
  /* ---------------------------------------------------------------------- */

  /** hw_resource_list_t: a buffer of PCI_MAX_HW_RES entries and the number in use. */
  class HwResourceList {
    const resources: array<HwResource>
    var count: nat

    predicate Valid()
      reads this
    {
      count <= resources.Length
    }

    constructor (capacity: nat)
      ensures Valid() && count == 0 && resources.Length == capacity && fresh(resources)
    {
      resources := new HwResource[capacity](_ => Interrupt(0));
      count := 0;
    }

    /** The entries in use. */
    function Contents(): seq<HwResource>
      reads this, resources
      requires Valid()
    {
      resources[..count]
    }

    /** pci_add_range: the next slot becomes an I/O or memory range. */
    method AddRange(address: nat, size: nat, io: bool)
      requires Valid() && count < resources.Length
      modifies this, resources
      ensures Valid() && count == old(count) + 1
      ensures Contents() == old(Contents()) + [if io then IoRange(address, size) else MemRange(address, size)]
    {
      resources[count] := if io then IoRange(address, size) else MemRange(address, size);
      count := count + 1;
    }

    /** pci_add_interrupt: the next slot becomes an interrupt. */
    method AddInterrupt(irq: nat)
      requires Valid() && count < resources.Length
      modifies this, resources
      ensures Valid() && count == old(count) + 1
      ensures Contents() == old(Contents()) + [Interrupt(irq)]
    {
      resources[count] := Interrupt(irq);
      count := count + 1;
    }

    /**
     * pci_read_bar: reads the BAR at `addr`, adds the range it describes
     * and returns the offset of the next BAR.
     */
    method ReadBar(space: Space, mask: SizeMask, loc: Location, addr: nat) returns (next: nat)
      requires Valid() && count + |Entries(BarResource(space, mask, loc, addr))| <= resources.Length
      modifies this, resources
      ensures Valid() && next == NextBar(space, loc, addr)
      ensures Contents() == old(Contents()) + Entries(BarResource(space, mask, loc, addr))
    {
      var val := ConfRead32(space, loc, addr);
      var io := val % 2 == 1;
      var addrw64 := false;
      if !io {
        var memType := (val / 2) % 4;
        if memType == 0 {
          addrw64 := false;
        } else if memType == 2 {
          addrw64 := true;
        } else {
          /* reserved, go to the next BAR */
          return addr + 4;
        }
      }
      /* size the BAR: write all ones, read the answer, restore the value */
      var sizeAnswer := mask(loc, addr);
      var rangeSize := BarMaskToSize(sizeAnswer);
      var rangeAddr := if addrw64 then Address64(ConfRead32(space, loc, addr + 4), BarBase(val))
                       else BarBase(val);
      AddRange(rangeAddr, rangeSize, io);
      if addrw64 {
        return addr + 8;
      }
      return addr + 4;
    }

    /** pci_read_bars: reads the BARs from PCI_BASE_ADDR_0 up to PCI_BASE_ADDR_5. */
    method ReadBars(space: Space, mask: SizeMask, loc: Location)
      requires Valid() && count + |Bars(space, mask, loc, PCI_BASE_ADDR_0)| <= resources.Length
      modifies this, resources
      ensures Valid() && Contents() == old(Contents()) + Bars(space, mask, loc, PCI_BASE_ADDR_0)
    {
      ghost var all := Bars(space, mask, loc, PCI_BASE_ADDR_0);
      ghost var start := Contents();
      ghost var rest := all;
      var addr := PCI_BASE_ADDR_0;
      while addr <= PCI_BASE_ADDR_5
        invariant rest == Bars(space, mask, loc, addr)
        invariant Valid() && count + |rest| <= resources.Length
        invariant Contents() + rest == start + all
        decreases PCI_BASE_ADDR_5 + 4 - addr
      {
        ghost var before := Contents();
        ghost var e := Entries(BarResource(space, mask, loc, addr));
        BarsStep(space, mask, loc, addr);
        rest := Bars(space, mask, loc, NextBar(space, loc, addr));
        addr := ReadBar(space, mask, loc, addr);
        AppendStep(before, e, rest, Contents(), start + all);
      }
    }

    /** pci_read_interrupt: the interrupt line register names an interrupt unless it reads 0xff. */
    method ReadInterrupt(space: Space, loc: Location)
      requires Valid()
      requires ConfRead8(space, loc, PCI_BRIDGE_INT_LINE) != 0xff ==> count < resources.Length
      modifies this, resources
      ensures Valid()
      ensures var irq := ConfRead8(space, loc, PCI_BRIDGE_INT_LINE);
        Contents() == old(Contents()) + (if irq != 0xff then [Interrupt(irq)] else [])
    {
      var irq := ConfRead8(space, loc, PCI_BRIDGE_INT_LINE);
      if irq != 0xff {
        AddInterrupt(irq);
      }
    }
  }

  /** One step of pci_read_bars: the resource of the BAR at `addr`, then those from the next BAR on. */
  lemma BarsStep(space: Space, mask: SizeMask, loc: Location, addr: nat)
    requires addr <= PCI_BASE_ADDR_5
    ensures Bars(space, mask, loc, addr)
            == Entries(BarResource(space, mask, loc, addr)) + Bars(space, mask, loc, NextBar(space, loc, addr))
  {
  }

  /** Appending `e` and then `rest` to `before` reaches `total`. */
  lemma AppendStep<T>(before: seq<T>, e: seq<T>, rest: seq<T>, after: seq<T>, total: seq<T>)
    requires after == before + e && before + (e + rest) == total
    ensures after + rest == total
  {
  }

  /** At most one resource per BAR register from `addr` to PCI_BASE_ADDR_5. */
  lemma {:induction false} BarsBound(space: Space, mask: SizeMask, loc: Location, addr: nat)
    ensures addr > PCI_BASE_ADDR_5 ==> Bars(space, mask, loc, addr) == []
    ensures addr <= PCI_BASE_ADDR_5 ==> 4 * |Bars(space, mask, loc, addr)| <= PCI_BASE_ADDR_5 + 7 - addr
    decreases PCI_BASE_ADDR_5 + 4 - addr
  {
    if addr <= PCI_BASE_ADDR_5 {
      BarsBound(space, mask, loc, NextBar(space, loc, addr));
    }
  }

  /** pci_read_bars adds at most six ranges, one per BAR register. */
  lemma BarsAtMostSix(space: Space, mask: SizeMask, loc: Location)
    ensures |Bars(space, mask, loc, PCI_BASE_ADDR_0)| <= 6
  {
    BarsBound(space, mask, loc, PCI_BASE_ADDR_0);
  }

  /* ---------------------------------------------------------------------- */
  /* Bus scan                                                                */
  /* ---------------------------------------------------------------------- */

  /** A function answers: its vendor ID is not 0xffff. */
  predicate Present(space: Space, loc: Location) {
    ConfRead16(space, loc, PCI_VENDOR_ID) != 0xffff
  }

  /** Bit 7 of the header type: the device has functions besides function 0. */
  predicate IsMultiFunction(space: Space, loc: Location) {
    ConfRead8(space, loc, PCI_HEADER_TYPE) >= 0x80
  }

  /** The header type with the multifunction bit cleared names a bridge to another bus. */
  predicate IsBridge(space: Space, loc: Location) {
    var t := ConfRead8(space, loc, PCI_HEADER_TYPE) % 0x80;
    t == PCI_HEADER_TYPE_BRIDGE || t == PCI_HEADER_TYPE_CARDBUS
  }

  /** Function `fn` of device `dev` on `bus` is one the scan visits and binds. */
  predicate Expected(space: Space, bindOk: Location -> bool, bus: nat, dev: nat, fn: nat) {
    var l := Location(bus, dev, fn);
    var l0 := Location(bus, dev, 0);
    && Present(space, l) && bindOk(l)
    && (fn > 0 ==> Present(space, l0) && IsMultiFunction(space, l0))
  }

  /**
   * Every function listed is a valid location on `bus` or a bus above it,
   * answers, was bound, and is function 0 or a function of a multifunction
   * device whose function 0 answers.
   */
  predicate Sound(space: Space, bindOk: Location -> bool, bus: nat, found: seq<Location>) {
    && (forall l :: l in found ==> l.Valid() && l.bus >= bus && Present(space, l) && bindOk(l))
    && (forall l :: l in found && l.fn > 0 ==>
          Present(space, Location(l.bus, l.dev, 0)) && IsMultiFunction(space, Location(l.bus, l.dev, 0)))
  }

  /** Every expected function of the devices before `dev`, and of device `dev` before `fn`, is listed. */
  predicate Complete(space: Space, bindOk: Location -> bool, bus: nat, found: seq<Location>, dev: nat, fn: nat) {
    && (forall d: nat, f: nat :: d < dev && f < 8 && Expected(space, bindOk, bus, d, f) ==>
          Location(bus, d, f) in found)
    && (forall f: nat :: f < fn && Expected(space, bindOk, bus, dev, f) ==> Location(bus, dev, f) in found)
  }

  /**
   * pci_bus_scan: visits every device of bus `bus`; a device whose function
   * 0 does not answer is skipped, and only a device whose function 0 has the
   * multifunction bit set has its other functions visited, skipping those
   * that do not answer. Each answering function gets a name and a node
   * (`allocOk` says whether both allocations succeed; if not, the scan of
   * this bus stops) and is bound (`bindOk`); a bound bridge whose secondary
   * bus number is above `bus` has that bus scanned in turn. The result lists
   * the bound functions in the order they were bound.
   */
  method BusScan(space: Space, allocOk: Location -> bool, bindOk: Location -> bool, bus: nat)
    returns (found: seq<Location>)
    requires bus < 0x100
    decreases 0x100 - bus
    ensures Sound(space, bindOk, bus, found)
    ensures (forall l :: allocOk(l)) ==> Complete(space, bindOk, bus, found, 32, 0)
  {
    ghost var allAlloc := forall l :: allocOk(l);
    found := [];
    var dnum := 0;
    while dnum < 32
      invariant dnum <= 32
      invariant Sound(space, bindOk, bus, found)
      invariant allAlloc ==> Complete(space, bindOk, bus, found, dnum, 0)
    {
      var multi := true;
      var fnum := 0;
      while multi && fnum < 8
        invariant fnum <= 8
        invariant fnum > 0 ==> Present(space, Location(bus, dnum, 0))
        invariant !multi ==> fnum > 0
        invariant fnum > 0 ==> (multi <==> IsMultiFunction(space, Location(bus, dnum, 0)))
        invariant Sound(space, bindOk, bus, found)
        invariant allAlloc ==> Complete(space, bindOk, bus, found, dnum, fnum)
      {
        var loc := Location(bus, dnum, fnum);
        var vendor := ConfRead16(space, loc, PCI_VENDOR_ID);
        if vendor == 0xffff {
          /* the function does not answer; at function 0 the whole device is absent */
          if fnum == 0 {
            break;
          }
          if allAlloc {
            CompleteNext(space, bindOk, bus, found, dnum, fnum);
          }
          fnum := fnum + 1;
        } else {
          var headerType := ConfRead8(space, loc, PCI_HEADER_TYPE);
          if fnum == 0 {
            multi := headerType >= 0x80;
          }
          headerType := headerType % 0x80;
          if !allocOk(loc) {
            return;
          }
          if bindOk(loc) {
            ghost var before := found;
            found := found + [loc];
            if headerType == PCI_HEADER_TYPE_BRIDGE || headerType == PCI_HEADER_TYPE_CARDBUS {
              var child := ConfRead8(space, loc, PCI_BRIDGE_SEC_BUS_NUM);
              if child > bus {
                var sub := BusScan(space, allocOk, bindOk, child);
                found := found + sub;
              }
            }
            assert loc in found;
            if allAlloc {
              CompleteExtend(space, bindOk, bus, before, found, dnum, fnum);
            }
          }
          if allAlloc {
            CompleteNext(space, bindOk, bus, found, dnum, fnum);
          }
          fnum := fnum + 1;
        }
      }
      if allAlloc {
        CompleteDevice(space, bindOk, bus, found, dnum, fnum);
      }
      dnum := dnum + 1;
    }
  }

  /** Listing more functions keeps a scan complete. */
  lemma CompleteExtend(space: Space, bindOk: Location -> bool, bus: nat, found: seq<Location>,
                       more: seq<Location>, dev: nat, fn: nat)
    requires Complete(space, bindOk, bus, found, dev, fn)
    requires forall l :: l in found ==> l in more
    ensures Complete(space, bindOk, bus, more, dev, fn)
  {
  }

  /** Once function `fn` is listed whenever it is expected, the scan is complete up to `fn + 1`. */
  lemma CompleteNext(space: Space, bindOk: Location -> bool, bus: nat, found: seq<Location>, dev: nat, fn: nat)
    requires Complete(space, bindOk, bus, found, dev, fn)
    requires Expected(space, bindOk, bus, dev, fn) ==> Location(bus, dev, fn) in found
    ensures Complete(space, bindOk, bus, found, dev, fn + 1)
  {
  }

  /** A device is finished once all eight functions are seen, or function 0 is absent or single-function. */
  lemma CompleteDevice(space: Space, bindOk: Location -> bool, bus: nat, found: seq<Location>, dev: nat, fn: nat)
    requires Complete(space, bindOk, bus, found, dev, fn)
    requires fn == 8 || (fn == 0 && !Present(space, Location(bus, dev, 0)))
             || (fn > 0 && !IsMultiFunction(space, Location(bus, dev, 0)))
    ensures Complete(space, bindOk, bus, found, dev + 1, 0)
  {
  }
}
