/**
 * Rockchip general register file (GRF) words written through a write mask:
 * the upper half of a store says which bits of the lower half take effect,
 * so bit x changes only when bit x + 16 of the stored word is set. The upper
 * half is never held and reads as zero.
 */
module Grf {

  /** `HIWORD_UPDATE(val, mask, shift)`: `val` at `shift`, with `mask` at `shift + 16` as the write mask. */
  function Hiword(val: bv32, mask: bv32, shift: bv32): bv32
    requires shift < 16
  {
    (val << shift) | (mask << (shift + 16))
  }

  /** The bits of the lower half that a stored word `w` is allowed to change. */
  function WriteMask(w: bv32): bv32 { w >> 16 }

  /** The register word after storing `w` over `prior`. */
  function GrfWrite(prior: bv32, w: bv32): (r: bv32)
    ensures r & 0xffff_0000 == 0
  {
    ((prior & !WriteMask(w)) | (w & WriteMask(w))) & 0xffff
  }

  /**
   * The write rule: the bits the mask enables take the stored value, every
   * other bit of the lower half keeps its value, and the upper half is clear.
   */
  lemma GrfWriteRule(prior: bv32, w: bv32)
    ensures GrfWrite(prior, w) & WriteMask(w) == w & WriteMask(w)
    ensures GrfWrite(prior, w) & !WriteMask(w) == prior & !WriteMask(w) & 0xffff
  {
  }

  /** Storing the same word twice has the effect of storing it once. */
  lemma GrfWriteIdempotent(prior: bv32, w: bv32)
    ensures GrfWrite(GrfWrite(prior, w), w) == GrfWrite(prior, w)
  {
  }

  /** A store whose mask is empty leaves the lower half as it was. */
  lemma GrfWriteNoMask(prior: bv32, w: bv32)
    requires WriteMask(w) == 0
    ensures GrfWrite(prior, w) == prior & 0xffff
  {
  }

  /** The PHY configuration word: `data` (4 bits) at bit 7 and `addr` (6 bits) at bit 1, each under its mask. */
  function CfgWord(addr: bv32, data: bv32): bv32
  {
    Hiword(data, 0xf, 7) | Hiword(addr, 0x3f, 1)
  }

  /** Selecting a test address: `addr` (6 bits) at bit 1. */
  function SelectWord(addr: bv32): bv32
  {
    Hiword(addr, 0x3f, 1)
  }

  /** The write strobe at bit 0. Enabling and disabling both store 1. */
  const WR_ENABLE: bv32 := 1
  const WR_DISABLE: bv32 := 1

  function StrobeWord(v: bv32): bv32
  {
    Hiword(v, 1, 0)
  }

  /** A lane's idle-off bit at `3 + index`. */
  function IdleWord(v: bv32, index: bv32): bv32
    requires index < 4
  {
    Hiword(v, 1, 3 + index)
  }

  /** Selecting an address sets bits 6:1 to it and keeps every other bit of the lower half. */
  lemma SelectEffect(prior: bv32, addr: bv32)
    requires addr <= 0x3f
    ensures (GrfWrite(prior, SelectWord(addr)) >> 1) & 0x3f == addr
    ensures GrfWrite(prior, SelectWord(addr)) & 0xff81 == prior & 0xff81
  {
  }

  /** A configuration word sets bits 10:7 to the data and bits 6:1 to the address, keeping the rest of the lower half. */
  lemma CfgWordEffect(prior: bv32, addr: bv32, data: bv32)
    requires addr <= 0x3f && data <= 0xf
    ensures (GrfWrite(prior, CfgWord(addr, data)) >> 7) & 0xf == data
    ensures (GrfWrite(prior, CfgWord(addr, data)) >> 1) & 0x3f == addr
    ensures GrfWrite(prior, CfgWord(addr, data)) & 0xf801 == prior & 0xf801
  {
  }

  /** The strobe sets bit 0 to `v` and keeps the rest of the lower half. */
  lemma StrobeEffect(prior: bv32, v: bv32)
    requires v <= 1
    ensures GrfWrite(prior, StrobeWord(v)) & 1 == v
    ensures GrfWrite(prior, StrobeWord(v)) & 0xfffe == prior & 0xfffe
  {
  }

  /** The disable strobe after the enable strobe changes nothing, since both store 1. */
  lemma DisableAfterEnable(prior: bv32)
    ensures GrfWrite(GrfWrite(prior, StrobeWord(WR_ENABLE)), StrobeWord(WR_DISABLE)) == GrfWrite(prior, StrobeWord(WR_ENABLE))
  {
    GrfWriteIdempotent(prior, StrobeWord(WR_ENABLE));
  }

  /** The idle-off bit of lane `index`: bit `3 + index`. */
  function IdleBit(index: bv32): bv32
    requires index < 4
  {
    1 << (3 + index)
  }

  /** The lane's idle-off bit takes `v`; every other bit of the lower half is kept. */
  lemma IdleEffect(prior: bv32, v: bv32, index: bv32)
    requires v <= 1 && index < 4
    ensures GrfWrite(prior, IdleWord(v, index)) & IdleBit(index) == if v == 1 then IdleBit(index) else 0
    ensures GrfWrite(prior, IdleWord(v, index)) & !IdleBit(index) == prior & !IdleBit(index) & 0xffff
  {
  }
}
