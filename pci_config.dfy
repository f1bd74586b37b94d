/**
 * Configuration-space addressing used by the Rockchip root complex:
 * the bus/device/function fields of a `pci_dev_t`, the ECAM-style composite
 * offset of section 7.2.2 of the PCI Express Base Specification, and the
 * byte-lane helpers that turn a 32-bit register word into a 1-, 2- or 4-byte
 * access and back.
 */
module PciConfig {

  /** Width of a configuration access (`enum pci_size_t`). */
  datatype PciSize = Size8 | Size16 | Size32

  /** `PCI_BUS`, `PCI_DEV` and `PCI_FUNC` of a `pci_dev_t`. */
  function Bus(bdf: bv32): bv32 { (bdf >> 16) & 0xff }
  function Dev(bdf: bv32): bv32 { (bdf >> 11) & 0x1f }
  function Func(bdf: bv32): bv32 { (bdf >> 8) & 0x7 }

  /** `PCI_BDF(bus, dev, func)`. */
  function MakeBdf(bus: bv32, dev: bv32, func: bv32): bv32
  {
    (bus << 16) | (dev << 11) | (func << 8)
  }

  lemma BdfFieldsRoundTrip(bus: bv32, dev: bv32, func: bv32)
    requires bus <= 0xff && dev <= 0x1f && func <= 0x7
    ensures Bus(MakeBdf(bus, dev, func)) == bus
    ensures Dev(MakeBdf(bus, dev, func)) == dev
    ensures Func(MakeBdf(bus, dev, func)) == func
  {
  }

  /** The composite offset `bus << 20 | dev << 15 | func << 12 | (offset & ~3)`. */
  function EcamOffset(bdf: bv32, offset: bv32): bv32
  {
    (Bus(bdf) << 20) | (Dev(bdf) << 15) | (Func(bdf) << 12) | (offset & !3)
  }

  /**
   * The composite offset is always word aligned, and for an offset inside the
   * 4 KiB extended configuration space the four fields can be read back from it.
   */
  lemma EcamOffsetFields(bdf: bv32, offset: bv32)
    ensures EcamOffset(bdf, offset) & 3 == 0
    ensures offset < 0x1000 ==>
      var off := EcamOffset(bdf, offset);
      && off >> 20 == Bus(bdf)
      && (off >> 15) & 0x1f == Dev(bdf)
      && (off >> 12) & 0x7 == Func(bdf)
      && off & 0xfff == offset & 0xffc
  {
  }

  /** Two accesses inside the 4 KiB space land on the same word only if they name the same function and word. */
  lemma EcamOffsetInjective(bdf1: bv32, off1: bv32, bdf2: bv32, off2: bv32)
    requires off1 < 0x1000 && off2 < 0x1000
    requires EcamOffset(bdf1, off1) == EcamOffset(bdf2, off2)
    ensures Bus(bdf1) == Bus(bdf2) && Dev(bdf1) == Dev(bdf2) && Func(bdf1) == Func(bdf2)
    ensures off1 & 0xffc == off2 & 0xffc
  {
    EcamOffsetFields(bdf1, off1);
    EcamOffsetFields(bdf2, off2);
  }

  /** The value bits of an access of this width (`pci_get_ff`). */
  function AllOnes(size: PciSize): bv32
  {
    match size
    case Size8 => 0xff
    case Size16 => 0xffff
    case Size32 => 0xffff_ffff
  }

  /** `value` cut to the access width. */
  function Truncate(value: bv32, size: PciSize): bv32 { value & AllOnes(size) }

  /** Bit position of the addressed byte lane: `offset & 3` for bytes, `offset & 2` for halfwords. */
  function LaneShift(offset: bv32, size: PciSize): (s: bv32)
    ensures s <= 24 && s & 7 == 0
  {
    match size
    case Size8 => (offset & 3) << 3
    case Size16 => (offset & 2) << 3
    case Size32 => 0
  }

  /** `pci_conv_32_to_size`: the addressed lane(s) of a register word. */
  function ConvToSize(word: bv32, offset: bv32, size: PciSize): bv32
  {
    match size
    case Size8 => (word >> LaneShift(offset, size)) & 0xff
    case Size16 => (word >> LaneShift(offset, size)) & 0xffff
    case Size32 => word
  }

  /** The value read never has a bit above the access width. */
  lemma ConvToSizeFits(word: bv32, offset: bv32, size: PciSize)
    ensures ConvToSize(word, offset, size) & !AllOnes(size) == 0
  {
  }

  /** `pci_conv_size_to_32`: the register word after merging `value` into the addressed lane(s) of `prior`. */
  function ConvFromSize(prior: bv32, value: bv32, offset: bv32, size: PciSize): bv32
  {
    match size
    case Size32 => value
    case _ =>
      var shift := LaneShift(offset, size);
      var mask := AllOnes(size) << shift;
      (prior & !mask) | ((value & AllOnes(size)) << shift)
  }

  /** Reading back the lane just merged yields the written value, cut to the access width. */
  lemma MergeThenExtract(prior: bv32, value: bv32, offset: bv32, size: PciSize)
    ensures ConvToSize(ConvFromSize(prior, value, offset, size), offset, size) == Truncate(value, size)
  {
    match size
    case Size8 => MergeThenExtractByte(prior, value, offset);
    case Size16 => MergeThenExtractHalf(prior, value, offset);
    case Size32 => MergeThenExtractWord(prior, value, offset);
  }

  // One width at a time keeps the bit-vector problem small.
  lemma MergeThenExtractByte(prior: bv32, value: bv32, offset: bv32)
    ensures ConvToSize(ConvFromSize(prior, value, offset, Size8), offset, Size8) == Truncate(value, Size8)
  {
  }

  lemma MergeThenExtractWord(prior: bv32, value: bv32, offset: bv32)
    ensures ConvToSize(ConvFromSize(prior, value, offset, Size32), offset, Size32) == Truncate(value, Size32)
  {
  }

  lemma MergeThenExtractHalf(prior: bv32, value: bv32, offset: bv32)
    ensures ConvToSize(ConvFromSize(prior, value, offset, Size16), offset, Size16) == Truncate(value, Size16)
  {
  }

  /** Merging touches only the addressed lane(s): every other bit of the word is kept. */
  lemma MergeKeepsOtherLanes(prior: bv32, value: bv32, offset: bv32, size: PciSize)
    ensures var mask := AllOnes(size) << LaneShift(offset, size);
      ConvFromSize(prior, value, offset, size) & !mask == prior & !mask
  {
  }

  /** Writing back the lane that was read leaves the word unchanged. */
  lemma ExtractThenMerge(word: bv32, offset: bv32, size: PciSize)
    ensures ConvFromSize(word, ConvToSize(word, offset, size), offset, size) == word
  {
    match size
    case Size8 => ExtractThenMergeByte(word, offset);
    case Size16 => ExtractThenMergeHalf(word, offset);
    case Size32 =>
  }

  lemma ExtractThenMergeByte(word: bv32, offset: bv32)
    ensures ConvFromSize(word, ConvToSize(word, offset, Size8), offset, Size8) == word
  {
  }

  lemma ExtractThenMergeHalf(word: bv32, offset: bv32)
    ensures ConvFromSize(word, ConvToSize(word, offset, Size16), offset, Size16) == word
  {
  }
}
