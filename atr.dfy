/**
 * The address-translation (ATR) table of the Rockchip PCIe root complex.
 *
 * Outbound slot 0 is a fixed 32 MiB window onto configuration space; every
 * further outbound slot translates one 1 MiB piece of the AXI aperture, so
 * slot `s >= 1` covers the CPU addresses starting at
 * `axi + 32 MiB + (s - 1) MiB`. Each memory or I/O window of the host bridge
 * is validated and then compiled into a run of consecutive slots; inbound
 * slot 2 is set to pass through last. The functions here describe the
 * sequence of register stores that `rockchip_pcie_atr_init` issues.
 */
module Atr {
  import opened Hw

  const MiB: nat := 0x10_0000
  /** `PCIE_ATR_OB_REGION0_SIZE`: the configuration window in front of the data slots. */
  const REGION0_SIZE: nat := 32 * MiB
  /** Offset of the ATR block inside the APB register space. */
  const ATR_BASE: nat := 0xc0_0000

  const HDR_MEM: bv32 := 0x2
  const HDR_IO: bv32 := 0x6
  const HDR_CFG_TYPE0: bv32 := 0xa
  const HDR_RID: bv32 := 0x80_0000

  /** `PCI_REGION_IO` and `PCI_REGION_SYS_MEMORY`, compared for equality with a region's flags. */
  const REGION_IO: nat := 0x1
  const REGION_SYS_MEMORY: nat := 0x100

  /** Register addresses of outbound slot `i` and inbound slot `i`. */
  function ObAddr0(apb: nat, i: nat): nat { apb + ATR_BASE + i * 0x20 }
  function ObAddr1(apb: nat, i: nat): nat { apb + ATR_BASE + 0x4 + i * 0x20 }
  function ObDesc0(apb: nat, i: nat): nat { apb + ATR_BASE + 0x8 + i * 0x20 }
  function ObDesc1(apb: nat, i: nat): nat { apb + ATR_BASE + 0xc + i * 0x20 }
  function IbAddr0(apb: nat, i: nat): nat { apb + ATR_BASE + 0x800 + i * 0x8 }
  function IbAddr1(apb: nat, i: nat): nat { apb + ATR_BASE + 0x804 + i * 0x8 }

  /** One window of the host bridge (`struct pci_region`). */
  datatype Region = Region(busStart: nat, physStart: nat, size: nat, flags: nat)

  /** The result of compiling a list of windows: whether all were accepted, and the stores made. */
  datatype Compiled = Compiled(ok: bool, writes: seq<RegWrite>)

  /** The four stores that program outbound slot `slot`. */
  function SlotWrites(apb: nat, slot: nat, addr0: bv32, desc0: bv32): (ws: seq<RegWrite>)
    ensures |ws| == 4
    ensures forall k :: 0 <= k < 4 ==> ws[k].addr == ObAddr0(apb, slot) + 4 * k
  {
    [RegWrite(ObAddr0(apb, slot), addr0), RegWrite(ObAddr1(apb, slot), 0),
     RegWrite(ObDesc0(apb, slot), desc0), RegWrite(ObDesc1(apb, slot), 0)]
  }

  /** Slot 0: 25 address bits, type-0 configuration requests carrying the requester id. */
  function ConfigWindowWrites(apb: nat): seq<RegWrite>
  {
    SlotWrites(apb, 0, 25 - 1, HDR_CFG_TYPE0 | HDR_RID)
  }

  /** Inbound slot 2 passes all 32 address bits through untranslated. */
  function InboundWrites(apb: nat): seq<RegWrite>
  {
    [RegWrite(IbAddr0(apb, 2), 32 - 1), RegWrite(IbAddr1(apb, 2), 0)]
  }

  /** Windows flagged as system memory are not mapped. */
  predicate Mapped(r: Region)
  {
    r.flags != REGION_SYS_MEMORY
  }

  /** Transaction header of a mapped window: I/O for `PCI_REGION_IO`, memory for every other flag value. */
  function HeaderType(flags: nat): (t: bv32)
    ensures t == HDR_IO <==> flags == REGION_IO
    ensures t == HDR_IO || t == HDR_MEM
  {
    if flags == REGION_IO then HDR_IO else HDR_MEM
  }

  /**
   * The four checks a mapped window must pass: identity mapping, 1 MiB
   * alignment, a start past the configuration window, and an end inside
   * the APB aperture. The end is computed without wrap-around here; the
   * 64-bit sum the driver computes is `AcceptedAsWritten`.
   */
  predicate Accepted(axi: nat, apb: nat, r: Region)
  {
    && r.busStart == r.physStart
    && r.busStart % MiB == 0
    && r.busStart >= axi + REGION0_SIZE
    && r.busStart + r.size <= apb
  }

  /** The slot covering a window's first MiB: `1 + (start - axi - 32 MiB) / 1 MiB`. */
  function FirstSlot(axi: nat, r: Region): (s: nat)
    requires r.busStart >= axi + REGION0_SIZE
    ensures s >= 1
  {
    1 + (r.busStart - axi - REGION0_SIZE) / MiB
  }

  /** First CPU address that data slot `slot` translates. */
  function SlotCpuBase(axi: nat, slot: nat): nat
    requires slot >= 1
  {
    axi + REGION0_SIZE + (slot - 1) * MiB
  }

  /** `count` consecutive data slots from `first`, each with 32 address bits and header `t | RID`. */
  function RunWrites(apb: nat, first: nat, count: nat, t: bv32): seq<RegWrite>
    decreases count
  {
    if count == 0 then []
    else RunWrites(apb, first, count - 1, t) + SlotWrites(apb, first + count - 1, 32 - 1, t | HDR_RID)
  }

  /** The run an accepted window is compiled into: one slot per MiB of its size. */
  function WindowWrites(axi: nat, apb: nat, r: Region): seq<RegWrite>
    requires Accepted(axi, apb, r)
  {
    RunWrites(apb, FirstSlot(axi, r), r.size / MiB, HeaderType(r.flags))
  }

  /** The data-slot stores for `rs`, processed in order and stopping at the first rejected window. */
  function Compile(axi: nat, apb: nat, rs: seq<Region>): Compiled
    decreases |rs|
  {
    if rs == [] then Compiled(true, [])
    else
      var prior := Compile(axi, apb, rs[..|rs| - 1]);
      var r := rs[|rs| - 1];
      if !prior.ok then prior
      else if !Mapped(r) then prior
      else if !Accepted(axi, apb, r) then Compiled(false, prior.writes)
      else Compiled(true, prior.writes + WindowWrites(axi, apb, r))
  }

  /**
   * The driver counts a window's size down in 1 MiB steps with an unsigned
   * 64-bit counter, which ends only for whole multiples of 1 MiB.
   */
  predicate SizesWholeMiB(rs: seq<Region>)
  {
    forall i :: 0 <= i < |rs| && Mapped(rs[i]) ==> rs[i].size % MiB == 0
  }

  /** Return code and complete store sequence of the table builder. */
  function Program(axi: nat, apb: nat, rs: seq<Region>): (int, seq<RegWrite>)
  {
    var c := Compile(axi, apb, rs);
    if c.ok then (0, ConfigWindowWrites(apb) + c.writes + InboundWrites(apb))
    else (-EINVAL, ConfigWindowWrites(apb) + c.writes)
  }

  /** The builder fails exactly when some mapped window is rejected. */
  lemma {:induction false} CompileFailsIff(axi: nat, apb: nat, rs: seq<Region>)
    ensures !Compile(axi, apb, rs).ok <==> exists i :: 0 <= i < |rs| && Mapped(rs[i]) && !Accepted(axi, apb, rs[i])
    decreases |rs|
  {
    if rs != [] {
      var front := rs[..|rs| - 1];
      CompileFailsIff(axi, apb, front);
      if !Compile(axi, apb, rs).ok {
        if !Compile(axi, apb, front).ok {
          var i :| 0 <= i < |front| && Mapped(front[i]) && !Accepted(axi, apb, front[i]);
          assert rs[i] == front[i];
        } else {
          assert Mapped(rs[|rs| - 1]) && !Accepted(axi, apb, rs[|rs| - 1]);
        }
      } else {
        forall i | 0 <= i < |rs| && Mapped(rs[i])
          ensures Accepted(axi, apb, rs[i])
        {
          if i < |front| {
            assert rs[i] == front[i];
          }
        }
      }
    }
  }

  /** Once a window is rejected, later windows add no stores: the result is that of the prefix up to the rejection. */
  lemma {:induction false} CompileStopsAtFailure(axi: nat, apb: nat, rs: seq<Region>, j: nat)
    requires j <= |rs|
    requires !Compile(axi, apb, rs[..j]).ok
    ensures Compile(axi, apb, rs) == Compile(axi, apb, rs[..j])
    decreases |rs|
  {
    if j < |rs| {
      var front := rs[..|rs| - 1];
      assert front[..j] == rs[..j];
      CompileStopsAtFailure(axi, apb, front, j);
    } else {
      assert rs[..j] == rs;
    }
  }

  /** A run is `4 * count` stores: the four slot stores for `first`, `first + 1`, ... in turn. */
  lemma {:induction false} RunWritesShape(apb: nat, first: nat, count: nat, t: bv32)
    ensures |RunWrites(apb, first, count, t)| == 4 * count
    ensures forall k :: 0 <= k < count ==>
      RunWrites(apb, first, count, t)[4 * k .. 4 * k + 4] == SlotWrites(apb, first + k, 32 - 1, t | HDR_RID)
    decreases count
  {
    if count > 0 {
      RunWritesShape(apb, first, count - 1, t);
      var prefix := RunWrites(apb, first, count - 1, t);
      var last := SlotWrites(apb, first + count - 1, 32 - 1, t | HDR_RID);
      forall k | 0 <= k < count
        ensures (prefix + last)[4 * k .. 4 * k + 4] == SlotWrites(apb, first + k, 32 - 1, t | HDR_RID)
      {
        if k < count - 1 {
          assert (prefix + last)[4 * k .. 4 * k + 4] == prefix[4 * k .. 4 * k + 4];
        } else {
          assert (prefix + last)[4 * k .. 4 * k + 4] == last;
        }
      }
    }
  }

  /** Stores into the outbound part of the ATR block: at or above slot 0, in the first 16 bytes of a 32-byte slot. */
  predicate IsOutbound(apb: nat, w: RegWrite)
  {
    w.addr >= apb + ATR_BASE && (w.addr - apb - ATR_BASE) % 0x20 < 0x10
  }

  lemma SlotWritesOutbound(apb: nat, slot: nat, addr0: bv32, desc0: bv32)
    ensures forall k :: 0 <= k < 4 ==> IsOutbound(apb, SlotWrites(apb, slot, addr0, desc0)[k])
  {
    forall k | 0 <= k < 4
      ensures IsOutbound(apb, SlotWrites(apb, slot, addr0, desc0)[k])
    {
      assert SlotWrites(apb, slot, addr0, desc0)[k].addr - apb - ATR_BASE == slot * 0x20 + 4 * k;
    }
  }

  lemma {:induction false} RunWritesOutbound(apb: nat, first: nat, count: nat, t: bv32)
    ensures forall k :: 0 <= k < |RunWrites(apb, first, count, t)| ==> IsOutbound(apb, RunWrites(apb, first, count, t)[k])
    decreases count
  {
    if count > 0 {
      RunWritesOutbound(apb, first, count - 1, t);
      SlotWritesOutbound(apb, first + count - 1, 32 - 1, t | HDR_RID);
    }
  }

  /** Every store the windows compile to lands in an outbound slot. */
  lemma {:induction false} CompileOutbound(axi: nat, apb: nat, rs: seq<Region>)
    ensures forall k :: 0 <= k < |Compile(axi, apb, rs).writes| ==> IsOutbound(apb, Compile(axi, apb, rs).writes[k])
    decreases |rs|
  {
    if rs != [] {
      var front := rs[..|rs| - 1];
      CompileOutbound(axi, apb, front);
      var r := rs[|rs| - 1];
      if Compile(axi, apb, front).ok && Mapped(r) && Accepted(axi, apb, r) {
        RunWritesOutbound(apb, FirstSlot(axi, r), r.size / MiB, HeaderType(r.flags));
      }
    }
  }

  /**
   * The builder always starts with the configuration window and programs the
   * inbound pass-through slot exactly when it succeeds: no store of a failed
   * run touches the inbound slot.
   */
  lemma ProgramInboundIffSuccess(axi: nat, apb: nat, rs: seq<Region>)
    ensures Program(axi, apb, rs).1[..4] == ConfigWindowWrites(apb)
    ensures Program(axi, apb, rs).0 == 0 || Program(axi, apb, rs).0 == -EINVAL
    ensures Program(axi, apb, rs).0 == 0 <==>
      exists k :: 0 <= k < |Program(axi, apb, rs).1| && Program(axi, apb, rs).1[k].addr == IbAddr0(apb, 2)
  {
    var c := Compile(axi, apb, rs);
    var (ret, ws) := Program(axi, apb, rs);
    CompileOutbound(axi, apb, rs);
    SlotWritesOutbound(apb, 0, 25 - 1, HDR_CFG_TYPE0 | HDR_RID);
    assert !IsOutbound(apb, RegWrite(IbAddr0(apb, 2), 0));
    var head := ConfigWindowWrites(apb) + c.writes;
    assert forall k :: 0 <= k < |head| ==> IsOutbound(apb, head[k]) by {
      forall k | 0 <= k < |head|
        ensures IsOutbound(apb, head[k])
      {
        if k >= 4 {
          assert head[k] == c.writes[k - 4];
        }
      }
    }
    if c.ok {
      assert ws == head + InboundWrites(apb);
      assert ws[|head|].addr == IbAddr0(apb, 2);
    } else {
      assert ws == head;
    }
  }

  /** When all windows are accepted, the program is the config slot, the compiled runs and the inbound slot, in that order. */
  lemma ProgramOnSuccess(axi: nat, apb: nat, rs: seq<Region>)
    requires forall i :: 0 <= i < |rs| && Mapped(rs[i]) ==> Accepted(axi, apb, rs[i])
    ensures Program(axi, apb, rs).0 == 0
    ensures Program(axi, apb, rs).1 == ConfigWindowWrites(apb) + Compile(axi, apb, rs).writes + InboundWrites(apb)
    ensures |Program(axi, apb, rs).1| == 6 + |Compile(axi, apb, rs).writes|
  {
    CompileFailsIff(axi, apb, rs);
  }

  /**
   * Slot `FirstSlot + k` of an accepted window is the slot whose MiB holds the
   * window's k-th MiB, and every slot of the run ends inside the APB aperture.
   */
  lemma AcceptedRunStaysInAperture(axi: nat, apb: nat, r: Region, k: nat)
    requires Accepted(axi, apb, r)
    requires k < r.size / MiB
    ensures SlotCpuBase(axi, FirstSlot(axi, r) + k) <= r.busStart + k * MiB < SlotCpuBase(axi, FirstSlot(axi, r) + k) + MiB
    ensures SlotCpuBase(axi, FirstSlot(axi, r) + k) + MiB <= apb
  {
    var off := r.busStart - axi - REGION0_SIZE;
    assert (off / MiB) * MiB <= off < (off / MiB) * MiB + MiB;
    assert SlotCpuBase(axi, FirstSlot(axi, r) + k) == axi + REGION0_SIZE + (off / MiB) * MiB + k * MiB;
    assert (k + 1) * MiB <= r.size;
  }

  /** The wrap-around of a 64-bit sum. */
  const U64: nat := 0x1_0000_0000_0000_0000

  /** The checks as the driver evaluates them: `addr + size` is a 64-bit sum that can wrap. */
  predicate AcceptedAsWritten(axi: nat, apb: nat, r: Region)
  {
    && r.busStart == r.physStart
    && r.busStart % MiB == 0
    && r.busStart >= axi + REGION0_SIZE
    && (r.busStart + r.size) % U64 <= apb
  }

  /** Without wrap-around the two forms of the checks agree. */
  lemma AcceptedAgreesWithoutWrap(axi: nat, apb: nat, r: Region)
    requires r.busStart + r.size < U64
    ensures AcceptedAsWritten(axi, apb, r) <==> Accepted(axi, apb, r)
  {
  }

  /**
   * A window whose size makes the 64-bit end wrap passes the driver's checks
   * although it runs far past the APB aperture; its run of slots is then
   * about 2^44 slots long.
   */
  lemma AcceptedAsWrittenOverflows()
    ensures var r := Region(0xfa00_0000, 0xfa00_0000, 0xffff_ffff_fff0_0000, 0x0);
      && r.size < U64
      && r.size % MiB == 0
      && AcceptedAsWritten(0xf800_0000, 0xfd00_0000, r)
      && !Accepted(0xf800_0000, 0xfd00_0000, r)
      && r.busStart + r.size > 0xfd00_0000
  {
  }

  /** An RK3399-style layout: a 2 MiB memory window right after the configuration window lands in slots 1 and 2. */
  lemma ProgramExample()
    ensures var rs := [Region(0xfa00_0000, 0xfa00_0000, 2 * MiB, 0x0)];
      var apb := 0xfd00_0000;
      && Program(0xf800_0000, apb, rs).0 == 0
      && Program(0xf800_0000, apb, rs).1 ==
        ConfigWindowWrites(apb)
        + SlotWrites(apb, 1, 31, HDR_MEM | HDR_RID)
        + SlotWrites(apb, 2, 31, HDR_MEM | HDR_RID)
        + InboundWrites(apb)
  {
    var rs := [Region(0xfa00_0000, 0xfa00_0000, 2 * MiB, 0x0)];
    var r := rs[0];
    var apb := 0xfd00_0000;
    assert rs[..0] == [];
    assert Accepted(0xf800_0000, apb, r);
    assert FirstSlot(0xf800_0000, r) == 1;
    var run := SlotWrites(apb, 1, 31, HDR_MEM | HDR_RID) + SlotWrites(apb, 2, 31, HDR_MEM | HDR_RID);
    assert RunWrites(apb, 1, 1, HDR_MEM) == SlotWrites(apb, 1, 31, HDR_MEM | HDR_RID);
    assert RunWrites(apb, 1, 2, HDR_MEM) == run;
    assert Compile(0xf800_0000, apb, rs) == Compiled(true, run);
  }
}
