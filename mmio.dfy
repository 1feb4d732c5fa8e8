/** Memory-mapped registers as plain storage.

    The firmware reaches its peripherals through volatile loads and stores of
    32-bit words at fixed addresses. Here the address space is a table that
    holds one word at every 32-bit address, kept in the field of a `Memory`
    object that the register operations update in place. Each kind of store is
    described by a pure function from the old table to the new one. */
module Mmio {

  /** A 32-bit address (`u32`). */
  newtype Address = a: int | 0 <= a < 0x1_0000_0000

  /** A 32-bit register word (`u32`), as a bit-vector for the bitwise operators. */
  type Word = bv32

  /** A table from addresses to the words they hold. */
  type Words = imap<Address, Word>

  /** The table covers the whole 32-bit address space. */
  ghost predicate Total(m: Words) {
    forall a: Address :: a in m
  }

  /** The address space the firmware's volatile loads and stores act on. */
  class Memory {
    var words: Words

    /** Every address holds a word. */
    ghost predicate Valid()
      reads this
    {
      Total(words)
    }

    constructor (init: Words)
      requires Total(init)
      ensures Valid() && words == init
    {
      words := init;
    }
  }

  /** `(old & !mask) | (value & mask)`: the bits selected by mask come from
      value, all others from prev. */
  function Masked(prev: Word, mask: Word, value: Word): Word {
    (prev & !mask) | (value & mask)
  }

  /** Where the mask is set the masked word has value's bits, and everywhere
      else prev's. */
  lemma MaskedSelects(prev: Word, mask: Word, value: Word)
    ensures Masked(prev, mask, value) & mask == value & mask
    ensures Masked(prev, mask, value) & !mask == prev & !mask
  {
  }

  /** A word with value's bits under the mask and prev's bits elsewhere is the
      masked word. */
  lemma MaskedUnique(r: Word, prev: Word, mask: Word, value: Word)
    requires r & mask == value & mask && r & !mask == prev & !mask
    ensures r == Masked(prev, mask, value)
  {
  }

  /** The masked word is characterised bit-wise: it is the one word that agrees
      with value under the mask and with prev outside it. */
  lemma MaskedIff(r: Word, prev: Word, mask: Word, value: Word)
    ensures r == Masked(prev, mask, value) <==> r & mask == value & mask && r & !mask == prev & !mask
  {
    MaskedSelects(prev, mask, value);
    if r & mask == value & mask && r & !mask == prev & !mask {
      MaskedUnique(r, prev, mask, value);
    }
  }

  /** A zero mask keeps the old word. */
  lemma MaskedZero(prev: Word, value: Word)
    ensures Masked(prev, 0, value) == prev
  {
  }

  /** A full mask gives the new value. */
  lemma MaskedFull(prev: Word, value: Word)
    ensures Masked(prev, 0xFFFF_FFFF, value) == value
  {
  }

  /** Masking again with the same mask and value changes nothing. */
  lemma MaskedIdempotent(prev: Word, mask: Word, value: Word)
    ensures Masked(Masked(prev, mask, value), mask, value) == Masked(prev, mask, value)
  {
  }

  /** OR-ing value into prev keeps every bit of prev and sets every bit of value. */
  lemma OrKeepsAndSets(prev: Word, value: Word)
    ensures (prev | value) & prev == prev && (prev | value) & value == value
  {
  }

  /** OR-ing the same value again changes nothing. */
  lemma OrIdempotent(prev: Word, value: Word)
    ensures (prev | value) | value == prev | value
  {
  }

  /** The table after a plain store of value at addr. */
  function AfterWrite(m: Words, addr: Address, value: Word): Words
    requires addr in m
  {
    m[addr := value]
  }

  /** The table after `write_or`: the word at addr ORed with value. */
  function AfterWriteOr(m: Words, addr: Address, value: Word): Words
    requires addr in m
  {
    m[addr := m[addr] | value]
  }

  /** The table after `write_masked`: the bits mask selects in the word at addr
      replaced by those of value. */
  function AfterWriteMasked(m: Words, addr: Address, mask: Word, value: Word): Words
    requires addr in m
  {
    m[addr := Masked(m[addr], mask, value)]
  }

  /** A store is read back at its address, touches no other address, and
      storing the same value again changes nothing. */
  lemma WriteThenRead(m: Words, addr: Address, value: Word)
    requires addr in m
    ensures AfterWrite(m, addr, value)[addr] == value
    ensures forall a :: a in m && a != addr ==> AfterWrite(m, addr, value)[a] == m[a]
    ensures AfterWrite(AfterWrite(m, addr, value), addr, value) == AfterWrite(m, addr, value)
  {
  }

  /** `write_or` clears no bit of the word at addr, sets the bits of value and
      touches no other address. */
  lemma WriteOrBits(m: Words, addr: Address, value: Word)
    requires addr in m
    ensures AfterWriteOr(m, addr, value)[addr] & m[addr] == m[addr]
    ensures AfterWriteOr(m, addr, value)[addr] & value == value
    ensures forall a :: a in m && a != addr ==> AfterWriteOr(m, addr, value)[a] == m[a]
  {
    OrKeepsAndSets(m[addr], value);
  }

  /** A second identical `write_or` changes nothing further. */
  lemma WriteOrTwice(m: Words, addr: Address, value: Word)
    requires addr in m
    ensures AfterWriteOr(AfterWriteOr(m, addr, value), addr, value) == AfterWriteOr(m, addr, value)
  {
  }

  /** `write_masked` gives the word at addr value's bits under the mask, keeps
      its bits outside the mask, and touches no other address. */
  lemma WriteMaskedBits(m: Words, addr: Address, mask: Word, value: Word)
    requires addr in m
    ensures AfterWriteMasked(m, addr, mask, value)[addr] & mask == value & mask
    ensures AfterWriteMasked(m, addr, mask, value)[addr] & !mask == m[addr] & !mask
    ensures forall a :: a in m && a != addr ==> AfterWriteMasked(m, addr, mask, value)[a] == m[a]
  {
    MaskedSelects(m[addr], mask, value);
  }

  /** A masked write with a zero mask leaves the table as it was. */
  lemma WriteMaskedZero(m: Words, addr: Address, value: Word)
    requires addr in m
    ensures AfterWriteMasked(m, addr, 0, value) == m
  {
    MaskedZero(m[addr], value);
  }

  /** A masked write with a full mask is a plain store. */
  lemma WriteMaskedFull(m: Words, addr: Address, value: Word)
    requires addr in m
    ensures AfterWriteMasked(m, addr, 0xFFFF_FFFF, value) == AfterWrite(m, addr, value)
  {
    MaskedFull(m[addr], value);
  }

  /** A second identical masked write changes nothing further. */
  lemma WriteMaskedTwice(m: Words, addr: Address, mask: Word, value: Word)
    requires addr in m
    ensures AfterWriteMasked(AfterWriteMasked(m, addr, mask, value), addr, mask, value) == AfterWriteMasked(m, addr, mask, value)
  {
    MaskedIdempotent(m[addr], mask, value);
  }
}
