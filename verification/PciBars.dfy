/** The pass of kernel/src/drivers/pci.rs that moves memory BARs into the low
    MMIO window: a bump allocator over a device list. */
module PciBars {
  import opened Wire
  import opened Arith

  const WINDOW: u64 := 0x8000_0000
  const LIMIT: u64 := 0xFEC0_0000
  const MIB: nat := 0x10_0000
  const MAX_SIZE: nat := 0x400_0000
  const TWO32: nat := 0x1_0000_0000
  const TWO64: nat := 0x1_0000_0000_0000_0000

  datatype Device = Device(headerType: byte, bar0: u32, bar1: u32, barPhys: seq<u64>)

  /** Command register: bits 1 and 2, and the rest of it. */
  datatype Command = Command(memory: bool, busMaster: bool, rest: u16)

  /** The configuration registers the pass writes. */
  datatype Registers = Registers(command: Command, bar0: u32, bar1: u32)

  /** What BAR0 and BAR1 read back after all ones were written to them. */
  datatype Mask = Mask(low: u32, high: u32)

  datatype Placement = Stay | Place(base: nat, size: nat)

  predicate PowerOfTwo(n: nat) {
    n == 1 || (n > 1 && n % 2 == 0 && PowerOfTwo(n / 2))
  }

  predicate Is64(d: Device) { d.bar0 / 2 % 4 == 2 }

  function Base0(low: u32): u32 { low - low % 16 }

  function Address(d: Device): nat {
    (if Is64(d) then d.bar1 * TWO32 else 0) + Base0(d.bar0)
  }

  predicate MemoryBar(d: Device) {
    d.headerType % 0x80 == 0 && d.bar0 != 0xFFFF_FFFF && d.bar0 % 2 == 0
  }

  predicate Reachable(d: Device) { Address(d) != 0 && Address(d) < LIMIT }

  function FullMask(d: Device, m: Mask): nat {
    (if Is64(d) then m.high * TWO32 else 0) + Base0(m.low)
  }

  function AlignUp(n: nat, size: nat): nat
    requires size > 0
  {
    Div(n + size - 1, size) * size
  }

  function Plan(d: Device, m: Mask, next: nat): Placement {
    if !MemoryBar(d) || Reachable(d) || FullMask(d, m) == 0 then Stay
    else
      var size := TWO64 - FullMask(d, m);
      if size > MAX_SIZE || !PowerOfTwo(size) then Stay
      else
        var base := AlignUp(next, size);
        if base + size > LIMIT then Stay else Place(base, size)
  }

  function NextAfter(p: Placement, next: nat): nat {
    if p.Place? then p.base + p.size else next
  }

  /** Where the window's free part starts before device n is looked at. */
  function NextAt(devices: seq<Device>, masks: seq<Mask>, start: nat, n: nat): nat
    requires n <= |devices| == |masks|
  {
    if n == 0 then start
    else
      var before := NextAt(devices, masks, start, n - 1);
      NextAfter(Plan(devices[n - 1], masks[n - 1], before), before)
  }

  function PlanAt(devices: seq<Device>, masks: seq<Mask>, start: nat, i: nat): Placement
    requires i < |devices| == |masks|
  {
    Plan(devices[i], masks[i], NextAt(devices, masks, start, i))
  }

  lemma AlignUpIsAligned(n: nat, size: nat)
    requires size > 0
    ensures n <= AlignUp(n, size) < n + size && AlignUp(n, size) % size == 0
  {
    DivFloor(n + size - 1, size);
    DivModUnique(Div(n + size - 1, size), 0, size);
  }

  lemma Placed(d: Device, m: Mask, next: nat)
    requires Plan(d, m, next).Place?
    ensures var p := Plan(d, m, next);
      && 0 < p.size <= MAX_SIZE && PowerOfTwo(p.size) && p.base % p.size == 0
      && next <= p.base < next + p.size && p.base + p.size <= LIMIT
  {
    AlignUpIsAligned(next, TWO64 - FullMask(d, m));
  }

  /** A region of this many bytes answers with this mask. */
  predicate MaskOf(d: Device, m: Mask, size: nat) {
    && PowerOfTwo(size) && 16 <= size <= MAX_SIZE
    && (Is64(d) ==> m == Mask(m.low, 0xFFFF_FFFF))
    && Base0(m.low) == TWO32 - size
  }

  /** A memory BAR the firmware left out of reach, of a supported size and with
      room left for it, is moved exactly when it is a 64-bit one: the length of
      a 32-bit one is computed in 64 bits and comes out too large. */
  lemma MovedIffWide(d: Device, m: Mask, next: nat, size: nat)
    requires MemoryBar(d) && !Reachable(d) && MaskOf(d, m, size)
    requires AlignUp(next, size) + size <= LIMIT
    ensures Plan(d, m, next) == if Is64(d) then Place(AlignUp(next, size), size) else Stay
  {
  }

  /** No 32-bit BAR is ever moved, whatever its mask. */
  lemma NarrowStays(d: Device, m: Mask, next: nat)
    requires !Is64(d)
    ensures Plan(d, m, next) == Stay
  {
  }

  /** A 4 KiB 32-bit BAR the firmware left at zero stays at zero. */
  lemma ZeroBarStaysZero()
    ensures var d := Device(0, 0, 0, [0, 0, 0, 0, 0, 0]);
      var m := Mask(0xFFFF_F000, 0);
      MemoryBar(d) && !Reachable(d) && Plan(d, m, WINDOW) == Stay
  {
    NarrowStays(Device(0, 0, 0, [0, 0, 0, 0, 0, 0]), Mask(0xFFFF_F000, 0), WINDOW);
  }

  lemma {:induction false} NextGrows(devices: seq<Device>, masks: seq<Mask>, start: nat, i: nat, j: nat)
    requires i <= j <= |devices| == |masks|
    ensures NextAt(devices, masks, start, i) <= NextAt(devices, masks, start, j)
    decreases j
  {
    if i < j {
      NextGrows(devices, masks, start, i, j - 1);
      var before := NextAt(devices, masks, start, j - 1);
      if Plan(devices[j - 1], masks[j - 1], before).Place? { Placed(devices[j - 1], masks[j - 1], before); }
    }
  }

  /** Every BAR placed in one pass is aligned to its size, above the start of
      the free part and below the limit, and later ones lie above earlier ones. */
  lemma PassPlaces(devices: seq<Device>, masks: seq<Mask>, start: nat, i: nat, j: nat)
    requires i < j < |devices| == |masks|
    requires PlanAt(devices, masks, start, i).Place? && PlanAt(devices, masks, start, j).Place?
    ensures var p, q := PlanAt(devices, masks, start, i), PlanAt(devices, masks, start, j);
      && start <= p.base && p.base + p.size <= q.base && q.base + q.size <= LIMIT
      && p.base % p.size == 0 && q.base % q.size == 0
  {
    Placed(devices[i], masks[i], NextAt(devices, masks, start, i));
    Placed(devices[j], masks[j], NextAt(devices, masks, start, j));
    NextGrows(devices, masks, start, 0, i);
    NextGrows(devices, masks, start, i + 1, j);
  }

  predicate Apart(a: nat, m: nat, b: nat, n: nat) { a + m <= b || b + n <= a }

  lemma {:induction false} NothingPlaced(devices: seq<Device>, masks: seq<Mask>, start: nat, n: nat)
    requires n <= |devices| == |masks| && forall i :: 0 <= i < n ==> PlanAt(devices, masks, start, i) == Stay
    ensures NextAt(devices, masks, start, n) == start
  {
    if n > 0 {
      NothingPlaced(devices, masks, start, n - 1);
      assert PlanAt(devices, masks, start, n - 1) == Stay;
    }
  }

  /** A BAR of length len that was already in the window and starts below the
      free part is clear of everything the pass places exactly when it ends
      at or below the free part's start, rounded up to the size of the first
      device that is placed. */
  lemma ClearOfExisting(devices: seq<Device>, masks: seq<Mask>, start: nat, at: nat, len: nat, first: nat)
    requires first < |devices| == |masks| && at < start && len > 0
    requires PlanAt(devices, masks, start, first).Place?
    requires forall i :: 0 <= i < first ==> PlanAt(devices, masks, start, i) == Stay
    ensures at + len <= AlignUp(start, TWO64 - FullMask(devices[first], masks[first])) <==>
      (forall j :: 0 <= j < |devices| && PlanAt(devices, masks, start, j).Place? ==>
        Apart(at, len, PlanAt(devices, masks, start, j).base, PlanAt(devices, masks, start, j).size))
  {
    var p := PlanAt(devices, masks, start, first);
    Placed(devices[first], masks[first], NextAt(devices, masks, start, first));
    NothingPlaced(devices, masks, start, first);
    if at + len <= p.base {
      forall j | 0 <= j < |devices| && PlanAt(devices, masks, start, j).Place?
        ensures Apart(at, len, PlanAt(devices, masks, start, j).base, PlanAt(devices, masks, start, j).size)
      {
        if j > first { PassPlaces(devices, masks, start, first, j); }
      }
    }
  }

  function Moved(d: Device, p: Placement): Device
    requires |d.barPhys| == 6 && (p.Place? ==> p.base < LIMIT && p.base % 16 == 0)
  {
    if p.Place? then Device(d.headerType, p.base + d.bar0 % 16, p.base / TWO32, d.barPhys[0 := p.base][1 := 0]) else d
  }

  lemma PlacedOnSixteen(d: Device, m: Mask, next: nat)
    requires Plan(d, m, next).Place?
    ensures Plan(d, m, next).base % 16 == 0
  {
    var size := TWO64 - FullMask(d, m);
    var q := Div(next + size - 1, size);
    assert size % 16 == 0;
    SixteenFold(q, size / 16);
  }

  lemma SixteenFold(q: nat, k: nat)
    ensures q * (16 * k) % 16 == 0
  {
    assert q * (16 * k) == q * k * 16;
    DivModUnique(q * k, 0, 16);
  }

  lemma InReach(d: Device, base: nat, m: Mask, next: nat)
    requires 0 < base < LIMIT && d.bar1 == 0 && Base0(d.bar0) == base
    ensures Address(d) == base && Plan(d, m, next) == Stay
  {
  }

  lemma EighthBits(k: nat, r: nat)
    requires r < 16
    ensures (16 * k + r) % 16 == r && (16 * k + r) / 2 % 4 == r / 2 % 4
  {
    var q := r / 2;
    DivModUnique(k, r, 16);
    DivModUnique(8 * k + q, r % 2, 2);
    DivModUnique(2 * k + q / 4, q % 4, 4);
  }

  lemma LowBits(n: nat, base: nat)
    requires base % 16 == 0
    ensures (base + n % 16) % 16 == n % 16 && (base + n % 16) / 2 % 4 == n / 2 % 4
  {
    EighthBits(n / 16, n % 16);
    EighthBits(base / 16, n % 16);
  }

  /** A moved device answers at its new place, keeps the kind of its BAR, and
      would not be moved again. */
  lemma MovedOnce(d: Device, m: Mask, next: nat, m': Mask, next': nat)
    requires |d.barPhys| == 6 && Plan(d, m, next).Place? && next > 0
    ensures Plan(d, m, next).base % 16 == 0
    ensures var d' := Moved(d, Plan(d, m, next));
      && Address(d') == Plan(d, m, next).base && Is64(d') && d'.bar0 % 16 == d.bar0 % 16
      && Plan(d', m', next') == Stay
  {
    Placed(d, m, next);
    PlacedOnSixteen(d, m, next);
    if !Is64(d) { NarrowStays(d, m, next); }
    var p := Plan(d, m, next);
    LowBits(d.bar0, p.base);
    InReach(Moved(d, p), p.base, m', next');
  }

  predicate InWindow(bar: u64) { WINDOW <= bar < LIMIT }

  /** The first MiB boundary above the window's start and all BAR starts in it. */
  predicate FirstFree(devices: seq<Device>, start: nat) {
    && start % MIB == 0 && WINDOW < start <= LIMIT
    && (forall d, b :: d in devices && b in d.barPhys && InWindow(b) ==> b < start)
    && (start == WINDOW + MIB || exists d, b :: d in devices && b in d.barPhys && InWindow(b) && start - MIB <= b)
  }

  function MovedBy(d: Device, m: Mask, next: nat): Device
    requires |d.barPhys| == 6
  {
    var p := Plan(d, m, next);
    if p.Place? then PlacedOnSixteen(d, m, next); Moved(d, p) else d
  }

  /** A moved BAR is written as an address, and decoding and bus mastering are
      turned on; anything else is put back. */
  function PlacedRegisters(r: Registers, d: Device, m: Mask, next: nat): Registers {
    var p := Plan(d, m, next);
    if p.Place? then Registers(r.command.(memory := true, busMaster := true), p.base, 0) else r
  }

  /** The highest of the window's start and the BAR starts in the window. */
  predicate Highest(devices: seq<Device>, high: nat) {
    && WINDOW <= high < LIMIT
    && (forall d, b :: d in devices && b in d.barPhys && InWindow(b) ==> b <= high)
    && (high == WINDOW || exists d, b :: d in devices && b in d.barPhys && b == high)
  }

  lemma RoundedUp(devices: seq<Device>, high: nat)
    requires Highest(devices, high)
    ensures FirstFree(devices, Div(high + MIB, MIB) * MIB)
  {
    var start := Div(high + MIB, MIB) * MIB;
    assert high < start <= high + MIB;
    if high != WINDOW {
      var d, b :| d in devices && b in d.barPhys && b == high;
      assert InWindow(b) && start - MIB <= b;
    }
  }

  /** Only BAR starts are looked at: if an old BAR runs past the start of the
      free part, the first new one of a fitting size lands inside it. */
  lemma NewInsideOld(d: Device, m: Mask, size: nat, at: nat, len: nat, start: nat)
    requires MemoryBar(d) && !Reachable(d) && Is64(d) && MaskOf(d, m, size)
    requires at < start < at + len && start % size == 0 && start + size <= LIMIT
    ensures Plan(d, m, start) == Place(start, size) && !Apart(at, len, start, size)
  {
    AlignedStays(start, size);
    MovedIffWide(d, m, start, size);
  }

  lemma AlignedStays(n: nat, size: nat)
    requires size > 0 && n % size == 0
    ensures AlignUp(n, size) == n
  {
    DivModUnique(n / size, size - 1, size);
  }

  method HighestBar(ghost before: seq<Device>, d: Device, from: nat) returns (high: nat)
    requires Highest(before, from)
    ensures Highest(before + [d], high)
  {
    high := from;
    for i := 0 to |d.barPhys|
      invariant WINDOW <= from <= high < LIMIT
      invariant forall k :: 0 <= k < i && InWindow(d.barPhys[k]) ==> d.barPhys[k] <= high
      invariant high == from || high in d.barPhys
    {
      if d.barPhys[i] >= high && d.barPhys[i] < LIMIT { high := d.barPhys[i]; }
    }
  }

  predicate SixBars(devices: seq<Device>) {
    forall i :: 0 <= i < |devices| ==> |devices[i].barPhys| == 6
  }

  /** The device list once its first n devices have been treated, each with
      the free part the ones before it left. */
  function DevicesAfter(devices: seq<Device>, masks: seq<Mask>, start: nat, n: nat): (after: seq<Device>)
    requires n <= |devices| == |masks| && SixBars(devices)
    ensures |after| == |devices| && SixBars(after) && after[n..] == devices[n..]
  {
    if n == 0 then devices
    else
      var before := DevicesAfter(devices, masks, start, n - 1);
      before[n - 1 := MovedBy(devices[n - 1], masks[n - 1], NextAt(devices, masks, start, n - 1))]
  }

  function RegistersAfter(devices: seq<Device>, registers: seq<Registers>, masks: seq<Mask>, start: nat, n: nat): (after: seq<Registers>)
    requires n <= |devices| == |masks| == |registers|
    ensures |after| == |registers| && after[n..] == registers[n..]
  {
    if n == 0 then registers
    else
      var before := RegistersAfter(devices, registers, masks, start, n - 1);
      before[n - 1 := PlacedRegisters(registers[n - 1], devices[n - 1], masks[n - 1], NextAt(devices, masks, start, n - 1))]
  }

  lemma {:induction false} DeviceAfter(devices: seq<Device>, registers: seq<Registers>, masks: seq<Mask>, start: nat, n: nat, i: nat)
    requires i < n <= |devices| == |masks| == |registers| && SixBars(devices)
    ensures DevicesAfter(devices, masks, start, n)[i] == MovedBy(devices[i], masks[i], NextAt(devices, masks, start, i))
    ensures RegistersAfter(devices, registers, masks, start, n)[i]
         == PlacedRegisters(registers[i], devices[i], masks[i], NextAt(devices, masks, start, i))
  {
    if i < n - 1 { DeviceAfter(devices, registers, masks, start, n - 1, i); }
  }

  /** The registers hold what the scan found in them. */
  predicate AsScanned(devices: seq<Device>, registers: seq<Registers>) {
    && |registers| == |devices|
    && forall i :: 0 <= i < |devices| ==> registers[i].bar0 == devices[i].bar0 && registers[i].bar1 == devices[i].bar1
  }

  class Bus {
    const devices: array<Device>
    const registers: array<Registers>
    const masks: seq<Mask>

    ghost predicate Valid()
      reads this, devices, registers
    {
      && devices.Length == registers.Length == |masks|
      && SixBars(devices[..])
    }

    /** BAR registers may only be written while memory decoding is off. */
    method WriteBars(i: nat, low: u32, wide: bool, high: u32)
      requires i < registers.Length && !registers[i].command.memory
      modifies registers
      ensures registers[..] == old(registers[..])[i := old(registers[i]).(bar0 := low, bar1 := if wide then high else old(registers[i].bar1))]
    {
      registers[i] := registers[i].(bar0 := low);
      if wide { registers[i] := registers[i].(bar1 := high); }
    }

    method WriteCommand(i: nat, c: Command)
      requires i < registers.Length
      modifies registers
      ensures registers[..] == old(registers[..])[i := old(registers[i]).(command := c)]
    {
      registers[i] := registers[i].(command := c);
    }

    /** Moves BAR0 of device i if it is out of reach and there is room, and
        leaves device and registers as they were if not. */
    method AssignBar0IfNeeded(i: nat, next: nat) returns (after: nat)
      requires Valid() && i < devices.Length && 0 < next
      requires registers[i].bar0 == devices[i].bar0 && registers[i].bar1 == devices[i].bar1
      modifies devices, registers
      ensures Valid() && after == NextAfter(Plan(old(devices[i]), masks[i], next), next)
      ensures devices[..] == old(devices[..])[i := MovedBy(old(devices[i]), masks[i], next)]
      ensures registers[..] == old(registers[..])[i := PlacedRegisters(old(registers[i]), old(devices[i]), masks[i], next)]
    {
      after := next;
      var d := devices[i];
      if d.headerType % 0x80 != 0 { return; }
      var low := d.bar0;
      if low == 0xFFFF_FFFF || low % 2 != 0 { return; }
      var wide := low / 2 % 4 == 2;
      var high := if wide then d.bar1 else 0;
      var address := high * TWO32 + Base0(low);
      if address != 0 && address < LIMIT { return; }
      var command := registers[i].command;
      var size := Probe(i, low, wide, high);
      if size == 0 || size > MAX_SIZE || !PowerOfTwo(size) {
        WriteCommand(i, command);
        return;
      }
      var base := AlignUp(next, size);
      if base >= LIMIT || base + size > LIMIT {
        WriteCommand(i, command);
        return;
      }
      PlacedOnSixteen(d, masks[i], next);
      after := base + size;
      MoveTo(i, base, size, wide, command);
    }

    /** Writes the new address, turns decoding and bus mastering on, and notes
        the address with the device. */
    method MoveTo(i: nat, base: nat, ghost size: nat, wide: bool, command: Command)
      requires Valid() && i < devices.Length && !registers[i].command.memory && base < LIMIT && base % 16 == 0
      modifies devices, registers
      ensures Valid() && devices[..] == old(devices[..])[i := Moved(old(devices[i]), Place(base, size))]
      ensures registers[..] == old(registers[..])[i :=
        Registers(command.(memory := true, busMaster := true), base, if wide then 0 else old(registers[i].bar1))]
    {
      var d := devices[i];
      WriteBars(i, base, wide, base / TWO32);
      WriteCommand(i, command.(memory := true, busMaster := true));
      LowBits(d.bar0, base);
      devices[i] := Device(d.headerType, base + d.bar0 % 16, base / TWO32, d.barPhys[0 := base][1 := 0]);
    }

    /** Turns decoding off, reads the mask, puts the BAR back and leaves
        decoding off. A size of 0 stands for an empty mask. */
    method Probe(i: nat, low: u32, wide: bool, high: u32) returns (size: nat)
      requires i < registers.Length == |masks|
      requires registers[i].bar0 == low && (wide ==> registers[i].bar1 == high)
      modifies registers
      ensures registers[..] == old(registers[..])[i := old(registers[i]).(command := old(registers[i].command).(memory := false))]
      ensures var mask := (if wide then masks[i].high * TWO32 else 0) + Base0(masks[i].low);
        size == if mask == 0 then 0 else TWO64 - mask
    {
      WriteCommand(i, registers[i].command.(memory := false));
      WriteBars(i, 0xFFFF_FFFF, wide, 0xFFFF_FFFF);
      var maskLow, maskHigh := masks[i].low, if wide then masks[i].high else 0;
      WriteBars(i, low, wide, high);
      var mask := maskHigh * TWO32 + Base0(maskLow);
      size := if mask == 0 || mask == TWO64 - 1 then 0 else TWO64 - mask;
    }

    /** The highest BAR start in the window decides where placing begins. */
    method FirstFreeAddress() returns (start: nat)
      requires Valid()
      ensures FirstFree(devices[..], start)
    {
      var high: nat := WINDOW;
      var i := 0;
      while i < devices.Length
        invariant 0 <= i <= devices.Length
        invariant Highest(devices[..i], high)
      {
        high := HighestBar(devices[..i], devices[i], high);
        assert devices[..i + 1] == devices[..i] + [devices[i]];
        i := i + 1;
      }
      assert devices[..i] == devices[..];
      start := Div(high + MIB, MIB) * MIB;
      RoundedUp(devices[..], high);
    }

    method AssignNext(i: nat, next: nat, ghost was: seq<Device>, ghost regs: seq<Registers>, ghost start: nat) returns (after: nat)
      requires Valid() && i < devices.Length && 0 < next
      requires |was| == |masks| && SixBars(was) && AsScanned(was, regs)
      requires next == NextAt(was, masks, start, i)
      requires devices[..] == DevicesAfter(was, masks, start, i)
      requires registers[..] == RegistersAfter(was, regs, masks, start, i)
      modifies devices, registers
      ensures Valid() && 0 < after && after == NextAt(was, masks, start, i + 1)
      ensures devices[..] == DevicesAfter(was, masks, start, i + 1)
      ensures registers[..] == RegistersAfter(was, regs, masks, start, i + 1)
    {
      assert devices[..][i..][0] == was[i..][0] && registers[..][i..][0] == regs[i..][0];
      after := AssignBar0IfNeeded(i, next);
    }

    /** The whole pass. */
    method AssignAll() returns (start: nat)
      requires Valid() && AsScanned(devices[..], registers[..])
      modifies devices, registers
      ensures Valid() && FirstFree(old(devices[..]), start)
      ensures devices[..] == DevicesAfter(old(devices[..]), masks, start, devices.Length)
      ensures registers[..] == RegistersAfter(old(devices[..]), old(registers[..]), masks, start, devices.Length)
    {
      start := FirstFreeAddress();
      ghost var was, regs := devices[..], registers[..];
      var next := start;
      var i := 0;
      while i < devices.Length
        invariant 0 <= i <= devices.Length && Valid() && next > 0
        invariant next == NextAt(was, masks, start, i)
        invariant devices[..] == DevicesAfter(was, masks, start, i)
        invariant registers[..] == RegistersAfter(was, regs, masks, start, i)
      {
        next := AssignNext(i, next, was, regs, start);
        i := i + 1;
      }
    }
  }
}
