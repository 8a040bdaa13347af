/** What the BAR pass promises, in the numbers a maintainer reads in the
    registers. */
module PciLaws {
  import opened PciBars
  import opened Wire

  /** A 64-bit BAR0 of an ordinary device that the firmware left at zero or
      put at FEC00000h or above is moved into the window, if its size is
      supported and there is room. */
  lemma WideMoved(headerType: byte, bar0: u32, bar1: u32, bars: seq<u64>, low: u32, next: nat, size: nat)
    requires headerType % 128 == 0 && bar0 % 2 == 0 && bar0 / 2 % 4 == 2
    requires var address := bar1 * 0x1_0000_0000 + (bar0 - bar0 % 16); address == 0 || address >= 0xFEC0_0000
    requires PowerOfTwo(size) && 16 <= size <= 0x400_0000 && low - low % 16 == 0x1_0000_0000 - size
    requires AlignUp(next, size) + size <= 0xFEC0_0000
    ensures Plan(Device(headerType, bar0, bar1, bars), Mask(low, 0xFFFF_FFFF), next) == Place(AlignUp(next, size), size)
  {
    MovedIffWide(Device(headerType, bar0, bar1, bars), Mask(low, 0xFFFF_FFFF), next, size);
  }

  /** What already answers below FEC00000h stays, 64-bit or 32-bit. */
  lemma ReachedStays(d: Device, m: Mask, next: nat)
    requires var address := (if d.bar0 / 2 % 4 == 2 then d.bar1 * 0x1_0000_0000 else 0) + (d.bar0 - d.bar0 % 16); 0 < address < 0xFEC0_0000
    ensures Plan(d, m, next) == Stay
  {
  }

  /** Bridges, I/O BARs and absent devices stay. */
  lemma OthersStay(d: Device, m: Mask, next: nat)
    requires d.headerType % 128 != 0 || d.bar0 % 2 == 1
    ensures Plan(d, m, next) == Stay
  {
  }

  /** A controller with 64 KiB of registers at 512 GiB, as OVMF leaves it. */
  lemma FarController()
    ensures Plan(Device(0, 4, 0x80, []), Mask(0xFFFF_0000, 0xFFFF_FFFF), 0x8010_0000) == Place(0x8010_0000, 0x1_0000)
  {
    TwoToThe(16);
    AlignedStays(0x8010_0000, 0x1_0000);
    WideMoved(0, 4, 0x80, [], 0xFFFF_0000, 0x8010_0000, 0x1_0000);
  }

  /** After the pass a 64-bit BAR0 of a supported size answers below
      FEC00000h with all its bytes if it was out of reach and there was room
      left at its turn; if it was within reach it answers where it was. */
  lemma PassReaches(devices: seq<Device>, masks: seq<Mask>, start: nat, i: nat, size: nat)
    requires i < |devices| == |masks| && SixBars(devices) && start > 0
    requires var d := devices[i]; MemoryBar(d) && Is64(d) && MaskOf(d, masks[i], size)
    requires AlignUp(NextAt(devices, masks, start, i), size) + size <= 0xFEC0_0000
    ensures var d, d' := devices[i], DevicesAfter(devices, masks, start, |devices|)[i];
      && 0 < Address(d') < 0xFEC0_0000
      && (if 0 < Address(d) < 0xFEC0_0000 then d' == d else Address(d') + size <= 0xFEC0_0000 && Address(d') % size == 0)
  {
    var registers := seq(|devices|, _ => Registers(Command(false, false, 0), 0, 0));
    var next := NextAt(devices, masks, start, i);
    DeviceAfter(devices, registers, masks, start, |devices|, i);
    NextGrows(devices, masks, start, 0, i);
    MovedIffWideOrReached(devices[i], masks[i], next, size);
  }

  lemma MovedIffWideOrReached(d: Device, m: Mask, next: nat, size: nat)
    requires MemoryBar(d) && Is64(d) && MaskOf(d, m, size) && |d.barPhys| == 6 && next > 0
    requires AlignUp(next, size) + size <= 0xFEC0_0000
    ensures var d' := MovedBy(d, m, next);
      && 0 < Address(d') < 0xFEC0_0000
      && (if 0 < Address(d) < 0xFEC0_0000 then d' == d else Address(d') + size <= 0xFEC0_0000 && Address(d') % size == 0)
  {
    if 0 < Address(d) < 0xFEC0_0000 {
      ReachedStays(d, m, next);
    } else {
      MovedIffWide(d, m, next, size);
      Placed(d, m, next);
      MovedOnce(d, m, next, m, next);
    }
  }

  /** A moved device has its address in the registers, with decoding and bus
      mastering on; the registers of every other are as they were. */
  lemma PassRegisters(devices: seq<Device>, registers: seq<Registers>, masks: seq<Mask>, start: nat, i: nat)
    requires i < |devices| == |masks| == |registers| && SixBars(devices)
    ensures var p, r, r' := PlanAt(devices, masks, start, i), registers[i], RegistersAfter(devices, registers, masks, start, |devices|)[i];
      if p == Stay then r' == r
      else r'.bar0 == p.base && r'.bar1 == 0 && r'.command.memory && r'.command.busMaster && r'.command.rest == r.command.rest
  {
    DeviceAfter(devices, registers, masks, start, |devices|, i);
    if PlanAt(devices, masks, start, i).Place? { Placed(devices[i], masks[i], NextAt(devices, masks, start, i)); }
  }

  function Pow(k: nat): nat {
    if k == 0 then 1 else 2 * Pow(k - 1)
  }

  /** Exactly the powers of two pass for one. */
  lemma {:induction false} TwoToThe(k: nat)
    ensures PowerOfTwo(Pow(k)) && Pow(k) >= 1 && Pow(16) == 0x1_0000
  {
    if k > 0 { TwoToThe(k - 1); }
    assert Pow(4) == 16 && Pow(8) == 256 && Pow(12) == 4096;
  }

  lemma {:induction false} OnlyPowers(n: nat) returns (k: nat)
    requires PowerOfTwo(n)
    ensures n == Pow(k)
  {
    k := 0;
    if n > 1 {
      var half := OnlyPowers(n / 2);
      k := half + 1;
    }
  }
}
