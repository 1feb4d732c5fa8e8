/** The entry point and its register helpers (src/main.rs).

    main.rs carries its own copies of the register operations, with the
    addresses written out: a raw read, a raw write, a masked read-modify-write,
    and three board steps (clock on for GPIO port G, pin PG13 to output, PG13
    high) that `main` runs once before idling forever. */
module Firmware {
  import opened Mmio
  import Peripherals

  /** RCC_AHB1ENR, the AHB1 peripheral clock enable register. */
  const RccAhb1enrAddress: Address := 0x4002_3830

  /** GPIOG_MODER, the mode register of GPIO port G. */
  const GpiogModer: Address := 0x4002_1800

  /** GPIOG_BSRR, the bit set/reset register of GPIO port G. */
  const GpiogBsrr: Address := 0x4002_1818

  /** `read_reg_32`: the word at addr; memory is unchanged. */
  method ReadReg32(mem: Memory, addr: Address) returns (value: Word)
    requires mem.Valid()
    ensures value == mem.words[addr]
  {
    value := mem.words[addr];
  }

  /** `write_reg_32`: a plain store of value at addr. */
  method WriteReg32(mem: Memory, addr: Address, value: Word)
    requires mem.Valid()
    modifies mem
    ensures mem.Valid()
    ensures mem.words == AfterWrite(old(mem.words), addr, value)
  {
    mem.words := mem.words[addr := value];
  }

  /** `masked_write_reg_32`: reads addr, replaces the bits mask selects by
      those of value, and writes the word back. */
  method MaskedWriteReg32(mem: Memory, addr: Address, mask: Word, value: Word)
    requires mem.Valid()
    modifies mem
    ensures mem.Valid()
    ensures mem.words == AfterWriteMasked(old(mem.words), addr, mask, value)
  {
    var oldRegValue := ReadReg32(mem, addr);
    var newRegValue := (oldRegValue & !mask) | (value & mask);
    WriteReg32(mem, addr, newRegValue);
  }

  /** `clock_enable_gpiog`: ORs bit 6 (GPIOGEN) into RCC_AHB1ENR. */
  method ClockEnableGpiog(mem: Memory)
    requires mem.Valid()
    modifies mem
    ensures mem.Valid()
    ensures mem.words == AfterWriteOr(old(mem.words), RccAhb1enrAddress, 1 << 6)
  {
    var gpiogEn: Word := 1 << 6;
    var reg := ReadReg32(mem, RccAhb1enrAddress);
    reg := reg | gpiogEn;
    WriteReg32(mem, RccAhb1enrAddress, reg);
  }

  /** `conf_pg13_output`: writes `01` (output) into MODER13, bits 26-27 of GPIOG_MODER. */
  method ConfPg13Output(mem: Memory)
    requires mem.Valid()
    modifies mem
    ensures mem.Valid()
    ensures mem.words == AfterWriteMasked(old(mem.words), GpiogModer, 3 << 26, 1 << 26)
  {
    var moder13Mask: Word := 3 << 26;
    var moder13Output: Word := 1 << 26;
    MaskedWriteReg32(mem, GpiogModer, moder13Mask, moder13Output);
  }

  /** `set_pg13_high`: stores BS13 (bit 13) to GPIOG_BSRR. */
  method SetPg13High(mem: Memory)
    requires mem.Valid()
    modifies mem
    ensures mem.Valid()
    ensures mem.words == AfterWrite(old(mem.words), GpiogBsrr, 1 << 13)
  {
    var bs13: Word := 1 << 13;
    WriteReg32(mem, GpiogBsrr, bs13);
  }

  /** The table after the three board steps of `main`, in order. */
  function AfterStartup(m: Words): Words
    requires RccAhb1enrAddress in m && GpiogModer in m && GpiogBsrr in m
  {
    AfterWrite(AfterWriteMasked(AfterWriteOr(m, RccAhb1enrAddress, 1 << 6), GpiogModer, 3 << 26, 1 << 26), GpiogBsrr, 1 << 13)
  }

  /** `main` up to its idle loop: clock on, PG13 to output, PG13 high. */
  method Startup(mem: Memory)
    requires mem.Valid()
    modifies mem
    ensures mem.Valid()
    ensures mem.words == AfterStartup(old(mem.words))
  {
    ClockEnableGpiog(mem);
    ConfPg13Output(mem);
    SetPg13High(mem);
  }

  /** After startup, RCC_AHB1ENR holds its old word with GPIOGEN ORed in,
      GPIOG_MODER its old word with `01` masked into bits 26-27, GPIOG_BSRR
      exactly bit 13, and no other word has changed: the three steps touch
      three different words, so none undoes another. */
  lemma StartupWords(m: Words)
    requires RccAhb1enrAddress in m && GpiogModer in m && GpiogBsrr in m
    ensures AfterStartup(m)[RccAhb1enrAddress] == m[RccAhb1enrAddress] | (1 << 6)
    ensures AfterStartup(m)[GpiogModer] == Masked(m[GpiogModer], 3 << 26, 1 << 26)
    ensures AfterStartup(m)[GpiogBsrr] == 1 << 13
    ensures forall a :: a in m && a != RccAhb1enrAddress && a != GpiogModer && a != GpiogBsrr ==> AfterStartup(m)[a] == m[a]
  {
  }

  /** After startup, RCC_AHB1ENR has GPIOGEN (bit 6) set and its other bits
      as before. */
  lemma StartupClockBits(m: Words)
    requires RccAhb1enrAddress in m && GpiogModer in m && GpiogBsrr in m
    ensures AfterStartup(m)[RccAhb1enrAddress] & (1 << 6) == 1 << 6
    ensures AfterStartup(m)[RccAhb1enrAddress] & !(1 << 6) == m[RccAhb1enrAddress] & !(1 << 6)
  {
    StartupWords(m);
    SetBit6(m[RccAhb1enrAddress]);
  }

  /** After startup, GPIOG_MODER has `01` in bits 26-27 and its other bits as
      before. */
  lemma StartupModeBits(m: Words)
    requires RccAhb1enrAddress in m && GpiogModer in m && GpiogBsrr in m
    ensures AfterStartup(m)[GpiogModer] & (3 << 26) == 1 << 26
    ensures AfterStartup(m)[GpiogModer] & !(3 << 26) == m[GpiogModer] & !(3 << 26)
  {
    StartupWords(m);
    var w := m[GpiogModer];
    assert AfterStartup(m)[GpiogModer] == Masked(w, 3 << 26, 1 << 26);
    OutputPg13(w);
  }

  /** Masking `01` into bits 26-27 leaves them `01` and every other bit as it was. */
  lemma OutputPg13(w: Word)
    ensures Masked(w, 3 << 26, 1 << 26) & (3 << 26) == 1 << 26
    ensures Masked(w, 3 << 26, 1 << 26) & !(3 << 26) == w & !(3 << 26)
  {
  }

  /** OR-ing in bit 6 sets bit 6 and leaves every other bit as it was. */
  lemma SetBit6(w: Word)
    ensures (w | (1 << 6)) & (1 << 6) == 1 << 6
    ensures (w | (1 << 6)) & !(1 << 6) == w & !(1 << 6)
  {
  }

  /** `clock_enable_gpiog` has the effect of `RCC_AHB1ENR.enable_gpiog()`. */
  lemma ClockEnableGpiogIsEnableGpiog(m: Words)
    requires RccAhb1enrAddress in m
    ensures AfterWriteOr(m, RccAhb1enrAddress, 1 << 6) == AfterWriteOr(m, Peripherals.RccAhb1enrAddr, Peripherals.GpiogEnBit)
  {
  }

  /** `conf_pg13_output` has the effect of `GPIOG.set_mode(13, GpioMode::Output)`. */
  lemma ConfPg13OutputIsSetMode(m: Words)
    requires GpiogModer in m
    ensures var port := Peripherals.GPIOG;
      AfterWriteMasked(m, GpiogModer, 3 << 26, 1 << 26) ==
      AfterWriteMasked(m, port.base + Peripherals.ModerOffset as Address, Peripherals.ModeMask(13), Peripherals.ModeValue(13, Peripherals.Output))
  {
    assert Peripherals.GPIOG.base + Peripherals.ModerOffset as Address == GpiogModer;
    assert Peripherals.ModeMask(13) == 3 << 26;
    assert Peripherals.ModeValue(13, Peripherals.Output) == 1 << 26;
  }

  /** `set_pg13_high` has the effect of `GPIOG.set_high(13)`. */
  lemma SetPg13HighIsSetHigh(m: Words)
    requires GpiogBsrr in m
    ensures var port := Peripherals.GPIOG;
      AfterWrite(m, GpiogBsrr, 1 << 13) == AfterWrite(m, port.base + Peripherals.BsrrOffset as Address, Peripherals.PinBit(13))
  {
  }
}
