/** Typed register drivers (src/peripherals.rs).

    `Register32` wraps one 32-bit register address and offers read, write and
    two read-modify-write stores. `RccAhb1enr` and `Gpio` use it to switch on
    the GPIOG clock, to set a pin's mode and to drive a pin high. The
    registers are words of the plain memory table of module Mmio. */
module Peripherals {
  import opened Mmio

  /** A 32-bit memory-mapped register at a fixed address. */
  datatype Register32 = Register32(addr: Address) {

    /** `read`: the word at the register's address; memory is unchanged. */
    method Read(mem: Memory) returns (value: Word)
      requires mem.Valid()
      ensures value == mem.words[addr]
    {
      value := mem.words[addr];
    }

    /** `write`: a plain store of value at the register's address. */
    method Write(mem: Memory, value: Word)
      requires mem.Valid()
      modifies mem
      ensures mem.Valid()
      ensures mem.words == AfterWrite(old(mem.words), addr, value)
    {
      mem.words := mem.words[addr := value];
    }

    /** `write_or`: reads the register, ORs value in and writes it back. */
    method WriteOr(mem: Memory, value: Word)
      requires mem.Valid()
      modifies mem
      ensures mem.Valid()
      ensures mem.words == AfterWriteOr(old(mem.words), addr, value)
    {
      var oldRegValue := Read(mem);
      var newRegValue := oldRegValue | value;
      Write(mem, newRegValue);
    }

    /** `write_masked`: reads the register, replaces the bits mask selects by
        those of value and writes it back. */
    method WriteMasked(mem: Memory, mask: Word, value: Word)
      requires mem.Valid()
      modifies mem
      ensures mem.Valid()
      ensures mem.words == AfterWriteMasked(old(mem.words), addr, mask, value)
    {
      var oldRegValue := Read(mem);
      var newRegValue := (oldRegValue & !mask) | (value & mask);
      Write(mem, newRegValue);
    }
  }

  /** Address of the RCC AHB1 peripheral clock enable register. */
  const RccAhb1enrAddr: Address := 0x4002_3830

  /** Bit of RCC_AHB1ENR that switches on the clock of GPIO port G. */
  const GpiogEnBit: Word := 1 << 6

  /** The RCC AHB1 peripheral clock enable register. */
  datatype RccAhb1enr = RccAhb1enr {

    /** `enable_gpiog`: ORs the GPIOG enable bit into RCC_AHB1ENR. */
    method EnableGpiog(mem: Memory)
      requires mem.Valid()
      modifies mem
      ensures mem.Valid()
      ensures mem.words == AfterWriteOr(old(mem.words), RccAhb1enrAddr, GpiogEnBit)
    {
      var reg := Register32(RccAhb1enrAddr);
      reg.WriteOr(mem, GpiogEnBit);
    }
  }

  const RCC_AHB1ENR: RccAhb1enr := RccAhb1enr

  /** The mode a pin is configured to; its value is the two-bit MODER field. */
  datatype GpioMode = Output {
    function Bits(): Word {
      match this
      case Output => 1
    }
  }

  /** Offset of the mode register (MODER) from a GPIO port's base. */
  const ModerOffset: int := 0x00

  /** Offset of the bit set/reset register (BSRR) from a GPIO port's base. */
  const BsrrOffset: int := 0x18

  /** `0b11 << (2 * pin)`: the two MODER bits of a pin. The shift overflows
      unless pin < 16. */
  function ModeMask(pin: nat): Word
    requires pin < 16
  {
    3 << (2 * pin)
  }

  /** `(mode as u32) << (2 * pin)`: the mode's field value at a pin's MODER bits. */
  function ModeValue(pin: nat, mode: GpioMode): Word
    requires pin < 16
  {
    mode.Bits() << (2 * pin)
  }

  /** `1 << pin`: the BSRR bit that sets a pin. The shift overflows unless pin < 32. */
  function PinBit(pin: nat): Word
    requires pin < 32
  {
    1 << pin
  }

  /** A pin's MODER mask is exactly bits 2*pin and 2*pin + 1. */
  lemma ModeMaskIsTwoBits(pin: nat)
    requires pin < 16
    ensures ModeMask(pin) == (1 << (2 * pin)) | (1 << (2 * pin + 1))
  {
  }

  /** The Output field value is bit 2*pin alone: bits 2*pin+1 .. 2*pin read `01`. */
  lemma OutputValueIsLowBit(pin: nat)
    requires pin < 16
    ensures ModeValue(pin, Output) == 1 << (2 * pin)
    ensures ModeValue(pin, Output) & ModeMask(pin) == ModeValue(pin, Output)
  {
  }

  /** A GPIO port at a base address. */
  datatype Gpio = Gpio(base: Address) {

    /** `set_mode`: a masked write of the pin's MODER field. */
    method SetMode(mem: Memory, pin: nat, mode: GpioMode)
      requires mem.Valid()
      requires pin < 16
      modifies mem
      ensures mem.Valid()
      ensures mem.words == AfterWriteMasked(old(mem.words), base + ModerOffset as Address, ModeMask(pin), ModeValue(pin, mode))
    {
      var moder := Register32(base + ModerOffset as Address);
      var mask := ModeMask(pin);
      var value := ModeValue(pin, mode);
      moder.WriteMasked(mem, mask, value);
    }

    /** `set_high`: a plain store of the pin's bit to BSRR, not an OR. */
    method SetHigh(mem: Memory, pin: nat)
      requires mem.Valid()
      requires pin < 32
      requires base as int + BsrrOffset < 0x1_0000_0000
      modifies mem
      ensures mem.Valid()
      ensures mem.words == AfterWrite(old(mem.words), base + BsrrOffset as Address, PinBit(pin))
    {
      var bsrr := Register32(base + BsrrOffset as Address);
      var value := PinBit(pin);
      bsrr.Write(mem, value);
    }
  }

  /** GPIO port G. */
  const GPIOG: Gpio := Gpio(0x4002_1800)

  /** Setting a pin to Output changes only bits 2*pin and 2*pin + 1 of the
      mode register, to `01`, and no other word. */
  lemma SetModeOutputBits(m: Words, base: Address, pin: nat)
    requires base in m
    requires pin < 16
    ensures AfterWriteMasked(m, base, ModeMask(pin), ModeValue(pin, Output))[base] & ModeMask(pin) == 1 << (2 * pin)
    ensures AfterWriteMasked(m, base, ModeMask(pin), ModeValue(pin, Output))[base] & !ModeMask(pin) == m[base] & !ModeMask(pin)
    ensures forall a :: a in m && a != base ==> AfterWriteMasked(m, base, ModeMask(pin), ModeValue(pin, Output))[a] == m[a]
  {
    WriteMaskedBits(m, base, ModeMask(pin), ModeValue(pin, Output));
    OutputValueIsLowBit(pin);
  }

  /** `enable_gpiog` sets bit 6 of RCC_AHB1ENR, clears no bit of it and
      touches no other word; doing it again changes nothing. */
  lemma EnableGpiogBits(m: Words)
    requires RccAhb1enrAddr in m
    ensures AfterWriteOr(m, RccAhb1enrAddr, GpiogEnBit)[RccAhb1enrAddr] & 0x40 == 0x40
    ensures AfterWriteOr(m, RccAhb1enrAddr, GpiogEnBit)[RccAhb1enrAddr] & m[RccAhb1enrAddr] == m[RccAhb1enrAddr]
    ensures forall a :: a in m && a != RccAhb1enrAddr ==> AfterWriteOr(m, RccAhb1enrAddr, GpiogEnBit)[a] == m[a]
    ensures AfterWriteOr(AfterWriteOr(m, RccAhb1enrAddr, GpiogEnBit), RccAhb1enrAddr, GpiogEnBit) == AfterWriteOr(m, RccAhb1enrAddr, GpiogEnBit)
  {
    WriteOrBits(m, RccAhb1enrAddr, GpiogEnBit);
    WriteOrTwice(m, RccAhb1enrAddr, GpiogEnBit);
  }
}
