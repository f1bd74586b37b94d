/**
 * The state of one RK3399 root complex (`struct rockchip_pcie`) and the
 * driver operations that change it.
 *
 * `regs` is the controller's register file; `trace` records every store,
 * reset-line change, GPIO change, PHY call and link poll in order. Each
 * operation states the steps it appends and that `regs` is the old register
 * file with those steps' stores applied (`RegsAfter`).
 */
module PcieController {
  import opened Hw
  import opened PciConfig
  import opened RockchipPcie
  import Atr

  class Controller {
    var axiBase: nat
    var apbBase: nat
    var firstBusno: int
    var lanes: bv32
    /** Which of the four PHY handles refer to a PHY (`generic_phy_valid`). */
    var phyValid: seq<bool>
    var regs: map<nat, bv32>
    var trace: seq<Step>

    ghost predicate Valid()
      reads this
    {
      |phyValid| == PHY_COUNT
    }

    /** Everything but the register file and the trace is as it was. */
    twostate predicate SetupKept()
      reads this
    {
      && axiBase == old(axiBase) && apbBase == old(apbBase) && firstBusno == old(firstBusno)
      && lanes == old(lanes) && phyValid == old(phyValid)
    }

    /** A zeroed driver state for the controller numbered `busno`, over register contents `m`. */
    constructor (busno: int, m: map<nat, bv32>)
      ensures Valid()
      ensures axiBase == 0 && apbBase == 0 && firstBusno == busno && lanes == 0
      ensures phyValid == [false, false, false, false]
      ensures regs == m && trace == []
    {
      axiBase := 0;
      apbBase := 0;
      firstBusno := busno;
      lanes := 0;
      phyValid := [false, false, false, false];
      regs := m;
      trace := [];
    }

    /** `writel`. */
    method Writel(addr: nat, value: bv32)
      requires Valid()
      modifies this
      ensures Valid() && SetupKept()
      ensures trace == old(trace) + [Mmio(RegWrite(addr, value))]
      ensures regs == old(regs)[addr := value]
    {
      regs := regs[addr := value];
      trace := trace + [Mmio(RegWrite(addr, value))];
    }

    /** Records a step that is not a register store. */
    method Log(s: Step)
      requires Valid() && !s.Mmio?
      modifies this
      ensures Valid() && SetupKept()
      ensures trace == old(trace) + [s]
      ensures regs == old(regs)
    {
      trace := trace + [s];
    }

    /**
     * `rockchip_pcie_read_config`: the addressed lane(s) of the target's
     * register word, or all ones of the access width for an absent device.
     * It always succeeds and changes nothing.
     */
    method ReadConfig(bdf: bv32, offset: bv32, size: PciSize) returns (ret: int, value: bv32)
      ensures ret == 0
      ensures ConfigAddress(axiBase, apbBase, firstBusno, bdf, offset).None? ==> value == AllOnes(size)
      ensures ConfigAddress(axiBase, apbBase, firstBusno, bdf, offset).Some? ==>
        value == ConvToSize(Reg(regs, ConfigAddress(axiBase, apbBase, firstBusno, bdf, offset).value), offset, size)
    {
      var off := EcamOffset(bdf, offset);
      match RouteOf(firstBusno, bdf)
      case LocalRc =>
        var word := Reg(regs, apbBase + RC_NORMAL_BASE + off as nat);
        return 0, ConvToSize(word, offset, size);
      case Downstream =>
        var word := Reg(regs, axiBase + off as nat);
        return 0, ConvToSize(word, offset, size);
      case NoDevice =>
        return 0, AllOnes(size);
    }

    /**
     * `rockchip_pcie_write_config`: a read-modify-write of the target's word
     * that replaces only the addressed lane(s), so that reading the lane back
     * yields the value cut to the access width; nothing is stored for an
     * absent device. It always succeeds.
     */
    method WriteConfig(bdf: bv32, offset: bv32, value: bv32, size: PciSize) returns (ret: int)
      requires Valid()
      modifies this
      ensures Valid() && SetupKept()
      ensures ret == 0
      ensures ConfigAddress(axiBase, apbBase, firstBusno, bdf, offset).None? ==> trace == old(trace) && regs == old(regs)
      ensures ConfigAddress(axiBase, apbBase, firstBusno, bdf, offset).Some? ==>
        var a := ConfigAddress(axiBase, apbBase, firstBusno, bdf, offset).value;
        && trace == old(trace) + [Mmio(RegWrite(a, ConvFromSize(Reg(old(regs), a), value, offset, size)))]
        && regs == old(regs)[a := ConvFromSize(Reg(old(regs), a), value, offset, size)]
        && ConvToSize(Reg(regs, a), offset, size) == Truncate(value, size)
    {
      var off := EcamOffset(bdf, offset);
      match RouteOf(firstBusno, bdf)
      case LocalRc =>
        var a := apbBase + RC_NORMAL_BASE + off as nat;
        var prior := Reg(regs, a);
        Writel(a, ConvFromSize(prior, value, offset, size));
        ConfigWriteThenRead(old(regs), a, value, offset, size);
        return 0;
      case Downstream =>
        var a := axiBase + off as nat;
        var prior := Reg(regs, a);
        Writel(a, ConvFromSize(prior, value, offset, size));
        ConfigWriteThenRead(old(regs), a, value, offset, size);
        return 0;
      case NoDevice =>
        return 0;
    }

    /** Four stores programming one outbound slot, in the driver's order. */
    method WriteSlot(slot: nat, addr0: bv32, desc0: bv32)
      requires Valid()
      modifies this
      ensures Valid() && SetupKept()
      ensures trace == old(trace) + MmioSteps(Atr.SlotWrites(apbBase, slot, addr0, desc0))
      ensures regs == ApplyWrites(old(regs), Atr.SlotWrites(apbBase, slot, addr0, desc0))
    {
      ghost var m := regs;
      ghost var w0, w1 := RegWrite(Atr.ObAddr0(apbBase, slot), addr0), RegWrite(Atr.ObAddr1(apbBase, slot), 0);
      ghost var w2, w3 := RegWrite(Atr.ObDesc0(apbBase, slot), desc0), RegWrite(Atr.ObDesc1(apbBase, slot), 0);
      assert Atr.SlotWrites(apbBase, slot, addr0, desc0) == [w0, w1, w2, w3];
      Writel(Atr.ObAddr0(apbBase, slot), addr0);
      ApplyWritesSnoc(m, [], w0);
      assert regs == ApplyWrites(m, [w0]);
      Writel(Atr.ObAddr1(apbBase, slot), 0);
      ApplyWritesSnoc(m, [w0], w1);
      assert [w0] + [w1] == [w0, w1];
      Writel(Atr.ObDesc0(apbBase, slot), desc0);
      ApplyWritesSnoc(m, [w0, w1], w2);
      assert [w0, w1] + [w2] == [w0, w1, w2];
      Writel(Atr.ObDesc1(apbBase, slot), 0);
      ApplyWritesSnoc(m, [w0, w1, w2], w3);
      assert [w0, w1, w2] + [w3] == [w0, w1, w2, w3];
    }

    /**
     * One window's run of data slots: `size` is counted down one MiB per
     * slot, starting at slot `first`.
     */
    method WriteRun(first: nat, total: nat, t: bv32)
      requires Valid() && total % Atr.MiB == 0
      modifies this
      ensures Valid() && SetupKept()
      ensures trace == old(trace) + MmioSteps(Atr.RunWrites(apbBase, first, total / Atr.MiB, t))
      ensures regs == ApplyWrites(old(regs), Atr.RunWrites(apbBase, first, total / Atr.MiB, t))
    {
      var size: nat := total;
      var region := first;
      ghost var n: nat := 0;
      while size > 0
        invariant size % Atr.MiB == 0 && size + n * Atr.MiB == total
        invariant region == first + n
        invariant Valid() && SetupKept()
        invariant trace == old(trace) + MmioSteps(Atr.RunWrites(apbBase, first, n, t))
        invariant regs == ApplyWrites(old(regs), Atr.RunWrites(apbBase, first, n, t))
      {
        ghost var before := regs;
        ghost var done := MmioSteps(Atr.RunWrites(apbBase, first, n, t));
        WriteSlot(region, 32 - 1, t | Atr.HDR_RID);
        RunGrows(old(regs), before, apbBase, first, n, t);
        AppendAssoc(old(trace), done, MmioSteps(Atr.SlotWrites(apbBase, first + n, 32 - 1, t | Atr.HDR_RID)));
        WholeMiBStep(size);
        size := size - Atr.MiB;
        region := region + 1;
        n := n + 1;
      }
      assert total == n * Atr.MiB;
      assert total / Atr.MiB == n;
    }

    /**
     * One host bridge window of `rockchip_pcie_atr_init`: a system-memory
     * window is skipped; any other must be an identity mapping, aligned to
     * 1 MiB and lie between the configuration window and the APB aperture,
     * and is then mapped one slot per MiB. `ok` is false when a check fails,
     * and then nothing is stored.
     */
    method ProgramWindow(r: Atr.Region) returns (ok: bool)
      requires Valid()
      requires Atr.Mapped(r) ==> r.size % Atr.MiB == 0
      modifies this
      ensures Valid() && SetupKept()
      ensures ok <==> !Atr.Mapped(r) || Atr.Accepted(axiBase, apbBase, r)
      ensures ok && Atr.Mapped(r) ==>
        && trace == old(trace) + MmioSteps(Atr.WindowWrites(axiBase, apbBase, r))
        && regs == ApplyWrites(old(regs), Atr.WindowWrites(axiBase, apbBase, r))
      ensures !(ok && Atr.Mapped(r)) ==> trace == old(trace) && regs == old(regs)
    {
      if r.flags == Atr.REGION_SYS_MEMORY {
        return true;
      }
      var t: bv32 := if r.flags == Atr.REGION_IO then Atr.HDR_IO else Atr.HDR_MEM;
      if r.busStart != r.physStart {
        return false;
      }
      var addr := r.busStart;
      if addr % Atr.MiB != 0 {
        return false;
      }
      var size := r.size;
      if addr < axiBase + Atr.REGION0_SIZE {
        return false;
      }
      if addr + size > apbBase {
        return false;
      }
      var offset := addr - axiBase - Atr.REGION0_SIZE;
      var region := 1 + offset / Atr.MiB;
      WriteRun(region, size, t);
      ok := true;
    }

    /**
     * The window loop of `rockchip_pcie_atr_init`: each window in turn,
     * stopping at the first rejected one; `ok` is false exactly then.
     */
    method ProgramWindows(regions: seq<Atr.Region>) returns (ok: bool)
      requires Valid()
      requires Atr.SizesWholeMiB(regions)
      modifies this
      ensures Valid() && SetupKept()
      ensures ok == Atr.Compile(axiBase, apbBase, regions).ok
      ensures trace == old(trace) + MmioSteps(Atr.Compile(axiBase, apbBase, regions).writes)
      ensures regs == ApplyWrites(old(regs), Atr.Compile(axiBase, apbBase, regions).writes)
    {
      ghost var done: seq<RegWrite> := [];
      var i := 0;
      while i < |regions|
        invariant 0 <= i <= |regions|
        invariant Valid() && SetupKept()
        invariant Atr.Compile(axiBase, apbBase, regions[..i]) == Atr.Compiled(true, done)
        invariant trace == old(trace) + MmioSteps(done)
        invariant regs == ApplyWrites(old(regs), done)
      {
        assert regions[..i + 1][..i] == regions[..i];
        ghost var mid := regs;
        ok := ProgramWindow(regions[i]);
        if !ok {
          Atr.CompileStopsAtFailure(axiBase, apbBase, regions, i + 1);
          return;
        }
        if Atr.Mapped(regions[i]) {
          ghost var run := Atr.WindowWrites(axiBase, apbBase, regions[i]);
          Extend(old(regs), done, run, mid);
          done := done + run;
        }
        i := i + 1;
      }
      assert regions[..|regions|] == regions;
      ok := true;
    }

    /**
     * `rockchip_pcie_atr_init`: programs the configuration slot, then the
     * windows, then the inbound slot; the first rejected window ends it
     * with -EINVAL.
     */
    method AtrInit(regions: seq<Atr.Region>) returns (ret: int)
      requires Valid()
      requires Atr.SizesWholeMiB(regions)
      modifies this
      ensures Valid() && SetupKept()
      ensures ret == Atr.Program(axiBase, apbBase, regions).0
      ensures trace == old(trace) + MmioSteps(Atr.Program(axiBase, apbBase, regions).1)
      ensures regs == ApplyWrites(old(regs), Atr.Program(axiBase, apbBase, regions).1)
    {
      var apb := apbBase;
      ghost var config := Atr.ConfigWindowWrites(apb);
      WriteSlot(0, 25 - 1, Atr.HDR_CFG_TYPE0 | Atr.HDR_RID);
      ghost var mid := regs;
      ghost var t1 := trace;
      var ok := ProgramWindows(regions);
      ghost var windows := Atr.Compile(axiBase, apb, regions).writes;
      Extend(old(regs), config, windows, mid);
      AppendAssoc(old(trace), MmioSteps(config), MmioSteps(windows));
      assert trace == old(trace) + MmioSteps(config + windows);
      assert regs == ApplyWrites(old(regs), config + windows);
      if !ok {
        assert Atr.Program(axiBase, apb, regions).1 == config + windows;
        return -EINVAL;
      }
      mid := regs;
      ghost var t2 := trace;
      Writel(Atr.IbAddr0(apb, 2), 32 - 1);
      Writel(Atr.IbAddr1(apb, 2), 0);
      ghost var inbound := Atr.InboundWrites(apb);
      assert trace == t2 + MmioSteps(inbound);
      ApplyWritesSnoc(mid, [], inbound[0]);
      ApplyWritesSnoc(mid, [inbound[0]], inbound[1]);
      assert [] + [inbound[0]] == [inbound[0]];
      assert [inbound[0]] + [inbound[1]] == inbound;
      Extend(old(regs), config + windows, inbound, mid);
      AppendAssoc(old(trace), MmioSteps(config + windows), MmioSteps(inbound));
      assert Atr.Program(axiBase, apb, regions).1 == config + windows + inbound;
      ret := 0;
    }

    /** Calls `op` on every valid PHY in slot order, stopping at the first failure (the two PHY loops of the bring-up). */
    method CallPhys(op: PhyOp, rets: seq<int>) returns (ret: int)
      requires Valid() && |rets| == PHY_COUNT
      modifies this
      ensures Valid() && SetupKept() && regs == old(regs)
      ensures ret == PhyPass(op, phyValid, rets, 0).ret
      ensures trace == old(trace) + PhyPass(op, phyValid, rets, 0).steps
    {
      ghost var valid := phyValid;
      ghost var done: seq<Step> := [];
      var i := 0;
      while i < PHY_COUNT
        invariant 0 <= i <= PHY_COUNT
        invariant Valid() && SetupKept() && regs == old(regs) && phyValid == valid
        invariant trace == old(trace) + done
        invariant PhyPass(op, valid, rets, 0) ==
          Run(PhyPass(op, valid, rets, i).ret, done + PhyPass(op, valid, rets, i).steps)
      {
        if !phyValid[i] {
          assert PhyPass(op, valid, rets, i) == PhyPass(op, valid, rets, i + 1);
          i := i + 1;
          continue;
        }
        Log(PhyCall(op, i));
        if rets[i] != 0 {
          assert PhyPass(op, valid, rets, i) == Run(rets[i], [PhyCall(op, i)]);
          return rets[i];
        }
        ghost var rest := PhyPass(op, valid, rets, i + 1);
        assert PhyPass(op, valid, rets, i) == Run(rest.ret, [PhyCall(op, i)] + rest.steps);
        AppendAssoc(done, [PhyCall(op, i)], rest.steps);
        done := done + [PhyCall(op, i)];
        i := i + 1;
      }
      ret := 0;
    }

    /** Endpoint held in reset, bus clocks and power management put in reset. */
    method EnterReset()
      requires Valid()
      modifies this
      ensures Valid() && SetupKept() && regs == old(regs)
      ensures trace == old(trace) + Prologue()
    {
      Log(SetEpGpio(false));
      Log(AssertReset(Aclk));
      Log(AssertReset(Pclk));
      Log(AssertReset(Pm));
    }

    /** Core, management and pipe put in reset; bus clocks and power management released. */
    method HoldCoreResets()
      requires Valid()
      modifies this
      ensures Valid() && SetupKept() && regs == old(regs)
      ensures trace == old(trace) + HoldCore()
    {
      Log(AssertReset(Core));
      Log(AssertReset(Mgmt));
      Log(AssertReset(MgmtSticky));
      Log(AssertReset(Pipe));
      Log(DeassertReset(Aclk));
      Log(DeassertReset(Pclk));
      Log(DeassertReset(Pm));
    }

    method ReleaseCoreResets()
      requires Valid()
      modifies this
      ensures Valid() && SetupKept() && regs == old(regs)
      ensures trace == old(trace) + ReleaseCore()
    {
      Log(DeassertReset(Core));
      Log(DeassertReset(Mgmt));
      Log(DeassertReset(MgmtSticky));
      Log(DeassertReset(Pipe));
    }

    /** Vendor id, bridge class code and RC BAR enables. */
    method WriteRcIds()
      requires Valid()
      modifies this
      ensures Valid() && SetupKept()
      ensures trace == old(trace) + MmioSteps(RootComplexWrites(apbBase))
      ensures regs == ApplyWrites(old(regs), RootComplexWrites(apbBase))
    {
      var apb := apbBase;
      ghost var m := regs;
      ghost var rc := RootComplexWrites(apb);
      Writel(apb + LM_VENDOR_ID, LM_VENDOR_ROCKCHIP);
      ApplyWritesSnoc(m, [], rc[0]);
      assert [] + [rc[0]] == [rc[0]];
      Writel(apb + RC_CLASS_REVISION, CLASS_BRIDGE_WORD);
      ApplyWritesSnoc(m, [rc[0]], rc[1]);
      assert [rc[0]] + [rc[1]] == [rc[0], rc[1]];
      Writel(apb + LM_RCBAR, RCBAR_ENABLES);
      ApplyWritesSnoc(m, [rc[0], rc[1]], rc[2]);
      assert [rc[0], rc[1]] + [rc[2]] == rc;
    }

    /** The `aspm-no-l0s` quirk: L0s support withdrawn from the link capabilities, all other bits kept. */
    method DropL0s()
      requires Valid()
      modifies this
      ensures Valid() && SetupKept()
      ensures trace == old(trace) + MmioSteps(L0sWrites(apbBase, true, Reg(old(regs), apbBase + RC_PCIE_LCAP)))
      ensures regs == ApplyWrites(old(regs), L0sWrites(apbBase, true, Reg(old(regs), apbBase + RC_PCIE_LCAP)))
    {
      var val := Reg(regs, apbBase + RC_PCIE_LCAP);
      val := ClearL0s(val);
      Writel(apbBase + RC_PCIE_LCAP, val);
      ApplyWritesSnoc(old(regs), [], RegWrite(apbBase + RC_PCIE_LCAP, val));
      assert [] + [RegWrite(apbBase + RC_PCIE_LCAP, val)] == [RegWrite(apbBase + RC_PCIE_LCAP, val)];
    }

    /** Root complex registers, then, if the device tree asks for it, L0s withdrawn. */
    method InitRootComplex(aspmNoL0s: bool)
      requires Valid()
      modifies this
      ensures Valid() && SetupKept()
      ensures var ws := RootComplexWrites(apbBase) + L0sWrites(apbBase, aspmNoL0s, Reg(old(regs), apbBase + RC_PCIE_LCAP));
        && trace == old(trace) + MmioSteps(ws)
        && regs == ApplyWrites(old(regs), ws)
    {
      ghost var rc := RootComplexWrites(apbBase);
      WriteRcIds();
      ghost var mid := regs;
      ApplyWritesUntouched(old(regs), rc, apbBase + RC_PCIE_LCAP);
      if aspmNoL0s {
        DropL0s();
        Extend(old(regs), rc, L0sWrites(apbBase, true, Reg(old(regs), apbBase + RC_PCIE_LCAP)), mid);
      } else {
        assert rc + [] == rc;
      }
    }

    /**
     * Core held in reset, bus clocks released, and the first client-config
     * word stored.
     */
    method ConfigureLanes()
      requires Valid()
      modifies this
      ensures Valid() && SetupKept()
      ensures trace == old(trace) + HoldCore() + [Mmio(RegWrite(apbBase + CLIENT_CONFIG, ClientConfigWord(lanes)))]
      ensures regs == RegsAfter(old(regs), HoldCore() + [Mmio(RegWrite(apbBase + CLIENT_CONFIG, ClientConfigWord(lanes)))])
      ensures regs == old(regs)[apbBase + CLIENT_CONFIG := ClientConfigWord(lanes)]
    {
      HoldCoreResets();
      var cr := GEN_SEL_1;
      cr := ClientConfigWord(lanes);
      Writel(apbBase + CLIENT_CONFIG, cr);
      ghost var cfg := [Mmio(RegWrite(apbBase + CLIENT_CONFIG, cr))];
      RegsAfterNoMmio(old(regs), HoldCore());
      RegsAfterAppend(old(regs), HoldCore(), cfg);
    }

    /**
     * Core released, Gen1 training enabled, the endpoint let out of reset,
     * and the link-status poll over the reads that fit before the timeout.
     */
    method TrainLink(linkSamples: seq<bv32>) returns (ret: int)
      requires Valid()
      modifies this
      ensures Valid() && SetupKept()
      ensures ret == 0 <==> PollSucceeds(linkSamples, LINK_STATUS_MASK, LINK_STATUS_MASK)
      ensures ret != 0 ==> ret == -ETIMEDOUT
      ensures var steps := TrainSteps(apbBase, PollSucceeds(linkSamples, LINK_STATUS_MASK, LINK_STATUS_MASK));
        && trace == old(trace) + steps
        && regs == RegsAfter(old(regs), steps)
      ensures regs == old(regs)[apbBase + CLIENT_CONFIG := LINK_TRAIN_ENABLE]
    {
      ReleaseCoreResets();
      ghost var t0 := trace;
      Writel(apbBase + CLIENT_CONFIG, LINK_TRAIN_ENABLE);
      Log(SetEpGpio(true));
      var taken;
      ret, taken := Poll(linkSamples, LINK_STATUS_MASK, LINK_STATUS_MASK);
      Log(WaitLinkUp(ret == 0));
      ghost var up := PollSucceeds(linkSamples, LINK_STATUS_MASK, LINK_STATUS_MASK);
      ghost var m := Mmio(RegWrite(apbBase + CLIENT_CONFIG, LINK_TRAIN_ENABLE));
      SnocThree(t0, m, SetEpGpio(true), WaitLinkUp(up));
      AppendAssoc(old(trace), ReleaseCore(), [m, SetEpGpio(true), WaitLinkUp(up)]);
      TrainStepsEffect(old(regs), apbBase, up);
    }

    /** Root complex registers and address translation once the link is up; returns the translation result. */
    method ConfigureRootComplex(aspmNoL0s: bool, regions: seq<Atr.Region>) returns (atrRet: int)
      requires Valid()
      requires Atr.SizesWholeMiB(regions)
      modifies this
      ensures Valid() && SetupKept()
      ensures atrRet == Atr.Program(old(axiBase), old(apbBase), regions).0
      ensures var ws := RcWrites(old(axiBase), old(apbBase), aspmNoL0s, Reg(old(regs), old(apbBase) + RC_PCIE_LCAP), regions);
        && trace == old(trace) + MmioSteps(ws)
        && regs == RegsAfter(old(regs), MmioSteps(ws))
    {
      ghost var lcap := Reg(regs, apbBase + RC_PCIE_LCAP);
      ghost var rc := RootComplexWrites(apbBase) + L0sWrites(apbBase, aspmNoL0s, lcap);
      ghost var atr := Atr.Program(axiBase, apbBase, regions).1;
      assert RcWrites(axiBase, apbBase, aspmNoL0s, lcap, regions) == rc + atr;
      InitRootComplex(aspmNoL0s);
      ghost var mid := regs;
      ghost var t1 := trace;
      atrRet := AtrInit(regions);
      Extend(old(regs), rc, atr, mid);
      AppendAssoc(old(trace), MmioSteps(rc), MmioSteps(atr));
      assert trace == old(trace) + MmioSteps(rc + atr);
      WritesInMmio(rc + atr);
      assert regs == ApplyWrites(old(regs), rc + atr);
    }

    /**
     * The first part of `rockchip_pcie_init_port`: endpoint and bus clocks
     * put in reset, PHY init, the core held in reset while the lane count is
     * stored, then PHY power-on. Only the client-config word changes.
     */
    method PowerUp(initRets: seq<int>, powerRets: seq<int>) returns (ret: int)
      requires Valid()
      requires |initRets| == PHY_COUNT && |powerRets| == PHY_COUNT
      modifies this
      ensures Valid() && SetupKept()
      ensures var up := PowerUpRun(apbBase, lanes, phyValid, initRets, powerRets);
        && ret == up.ret
        && trace == old(trace) + up.steps
        && regs == RegsAfter(old(regs), up.steps)
      ensures forall a :: a != apbBase + CLIENT_CONFIG ==> Reg(regs, a) == Reg(old(regs), a)
    {
      ghost var r0 := regs;
      EnterReset();
      ret := CallPhys(PhyInit, initRets);
      ghost var s1 := Prologue() + PhyPass(PhyInit, phyValid, initRets, 0).steps;
      assert trace == old(trace) + s1;
      PhyPassResult(PhyInit, phyValid, initRets, 0);
      RegsAfterNoMmio(r0, s1);
      if ret != 0 {
        return;
      }

      ConfigureLanes();
      ghost var cfg := HoldCore() + [Mmio(RegWrite(apbBase + CLIENT_CONFIG, ClientConfigWord(lanes)))];
      ghost var s2 := s1 + cfg;
      assert s2 == s1 + HoldCore() + [Mmio(RegWrite(apbBase + CLIENT_CONFIG, ClientConfigWord(lanes)))];
      assert trace == old(trace) + s2;
      RegsAfterAppend(r0, s1, cfg);
      ghost var r2 := regs;

      ret := CallPhys(PhyPowerOn, powerRets);
      ghost var power := PhyPass(PhyPowerOn, phyValid, powerRets, 0);
      assert trace == old(trace) + (s2 + power.steps);
      PhyPassResult(PhyPowerOn, phyValid, powerRets, 0);
      RegsAfterNoMmio(r2, power.steps);
      RegsAfterAppend(r0, s2, power.steps);
    }

    /**
     * The bring-up after the PHYs are powered: link training, then, if the
     * link came up, the root complex and address translation.
     */
    method BringUpLink(linkSamples: seq<bv32>, aspmNoL0s: bool, regions: seq<Atr.Region>) returns (ret: int)
      requires Valid()
      requires Atr.SizesWholeMiB(regions)
      modifies this
      ensures Valid() && SetupKept()
      ensures var link := LinkRun(old(axiBase), old(apbBase), PollSucceeds(linkSamples, LINK_STATUS_MASK, LINK_STATUS_MASK),
                                  aspmNoL0s, Reg(old(regs), old(apbBase) + RC_PCIE_LCAP), regions);
        && ret == link.ret
        && trace == old(trace) + link.steps
        && regs == RegsAfter(old(regs), link.steps)
    {
      ghost var r0 := regs;
      ghost var lcap := Reg(r0, apbBase + RC_PCIE_LCAP);
      ghost var up := PollSucceeds(linkSamples, LINK_STATUS_MASK, LINK_STATUS_MASK);
      ghost var train := TrainSteps(apbBase, up);
      ghost var link := LinkRun(axiBase, apbBase, up, aspmNoL0s, lcap, regions);
      ret := TrainLink(linkSamples);
      if ret != 0 {
        assert link == Run(-ETIMEDOUT, train);
        return;
      }
      ghost var last := MmioSteps(RcWrites(axiBase, apbBase, aspmNoL0s, lcap, regions));
      assert link.steps == train + last;
      ghost var r1 := regs;
      assert Reg(r1, apbBase + RC_PCIE_LCAP) == lcap;
      var atrRet := ConfigureRootComplex(aspmNoL0s, regions);
      AppendAssoc(old(trace), train, last);
      RegsAfterAppend(r0, train, last);
      if atrRet != 0 {
        return -ENODEV;
      }
      return 0;
    }

    /**
     * `rockchip_pcie_init_port`, given the results of the PHY init and
     * power-on calls per slot, the link-status reads that fit before the
     * timeout, the `aspm-no-l0s` property and the host bridge windows.
     */
    method InitPort(initRets: seq<int>, powerRets: seq<int>, linkSamples: seq<bv32>, aspmNoL0s: bool,
                    regions: seq<Atr.Region>) returns (ret: int)
      requires Valid()
      requires |initRets| == PHY_COUNT && |powerRets| == PHY_COUNT
      requires Atr.SizesWholeMiB(regions)
      modifies this
      ensures Valid() && SetupKept()
      ensures var run := PortRun(old(axiBase), old(apbBase), old(lanes), old(phyValid), initRets, powerRets,
                                 PollSucceeds(linkSamples, LINK_STATUS_MASK, LINK_STATUS_MASK), aspmNoL0s,
                                 Reg(old(regs), old(apbBase) + RC_PCIE_LCAP), regions);
        && ret == run.ret
        && trace == old(trace) + run.steps
        && regs == RegsAfter(old(regs), run.steps)
    {
      ghost var r0 := regs;
      ghost var linkUp := PollSucceeds(linkSamples, LINK_STATUS_MASK, LINK_STATUS_MASK);
      ghost var lcap := Reg(r0, apbBase + RC_PCIE_LCAP);
      ghost var up := PowerUpRun(apbBase, lanes, phyValid, initRets, powerRets);
      ghost var link := LinkRun(axiBase, apbBase, linkUp, aspmNoL0s, lcap, regions);
      ghost var run := PortRun(axiBase, apbBase, lanes, phyValid, initRets, powerRets, linkUp, aspmNoL0s, lcap, regions);
      ret := PowerUp(initRets, powerRets);
      if ret != 0 {
        assert run == up;
        return;
      }
      assert run == Run(link.ret, up.steps + link.steps);
      assert Reg(regs, apbBase + RC_PCIE_LCAP) == lcap;
      ret := BringUpLink(linkSamples, aspmNoL0s, regions);
      AppendAssoc(old(trace), up.steps, link.steps);
      RegsAfterAppend(r0, up.steps, link.steps);
    }

    /**
     * The lane count and addresses taken from the device tree
     * (`rockchip_pcie_parse_dt`), given the lookups' results. A zero
     * `axi-base` fails with -ENODEV; `apb-base` is stored unchecked; any reset
     * lookup failure gives -ENODEV; the GPIO and PHY lookups fail with their
     * own errors.
     */
    method ParseDt(axiAddr: nat, apbAddr: nat, gpioRet: int, numLanes: Option<bv32>, resetRets: seq<int>,
                   phyGetRet: int) returns (ret: int)
      requires Valid()
      requires |resetRets| == 7  // aclk, core, mgmt, mgmt-sticky, pclk, pipe, pm
      modifies this
      ensures Valid()
      ensures regs == old(regs) && trace == old(trace) && firstBusno == old(firstBusno)
      ensures ret == 0 <==>
        axiAddr != 0 && gpioRet == 0 && (forall i :: 0 <= i < 7 ==> resetRets[i] == 0) && phyGetRet == 0
      ensures axiAddr == 0 ==> ret == -ENODEV
      ensures axiAddr != 0 && gpioRet != 0 ==> ret == gpioRet
      ensures axiAddr != 0 && gpioRet == 0 && (exists i :: 0 <= i < 7 && resetRets[i] != 0) ==> ret == -ENODEV
      ensures axiAddr != 0 && gpioRet == 0 && (forall i :: 0 <= i < 7 ==> resetRets[i] == 0) ==> ret == phyGetRet
      ensures axiBase == axiAddr
      ensures apbBase == if axiAddr != 0 then apbAddr else old(apbBase)
      ensures lanes == if axiAddr != 0 && gpioRet == 0 then NormalizeLanes(numLanes, old(lanes)) else old(lanes)
      ensures ret == 0 ==> phyValid == old(phyValid)[0 := true]
      ensures ret != 0 ==> phyValid == old(phyValid)
    {
      axiBase := axiAddr;
      if axiBase == 0 {
        return -ENODEV;
      }
      apbBase := apbAddr;
      if axiBase == 0 {
        return -ENODEV;
      }
      if gpioRet != 0 {
        return gpioRet;
      }
      match numLanes {
        case Some(v) =>
          lanes := v;
          if lanes == 0 || lanes == 3 || lanes > 4 {
            lanes := 1;
          }
        case None =>
      }
      if resetRets[0] != 0 || resetRets[1] != 0 || resetRets[2] != 0 || resetRets[3] != 0 ||
         resetRets[4] != 0 || resetRets[5] != 0 || resetRets[6] != 0 {
        return -ENODEV;
      }
      if phyGetRet != 0 {
        return phyGetRet;
      }
      phyValid := phyValid[0 := true];
      ret := 0;
    }
  }

  /** One more slot of a run: its stores follow those of the slots before it. */
  lemma RunGrows(m: map<nat, bv32>, mid: map<nat, bv32>, apb: nat, first: nat, n: nat, t: bv32)
    requires mid == ApplyWrites(m, Atr.RunWrites(apb, first, n, t))
    ensures MmioSteps(Atr.RunWrites(apb, first, n + 1, t)) ==
      MmioSteps(Atr.RunWrites(apb, first, n, t)) + MmioSteps(Atr.SlotWrites(apb, first + n, 32 - 1, t | Atr.HDR_RID))
    ensures ApplyWrites(mid, Atr.SlotWrites(apb, first + n, 32 - 1, t | Atr.HDR_RID)) ==
      ApplyWrites(m, Atr.RunWrites(apb, first, n + 1, t))
  {
    var slot := Atr.SlotWrites(apb, first + n, 32 - 1, t | Atr.HDR_RID);
    MmioStepsAppend(Atr.RunWrites(apb, first, n, t), slot);
    ApplyWritesAppend(m, Atr.RunWrites(apb, first, n, t), slot);
  }

  lemma WholeMiBStep(size: nat)
    requires size % Atr.MiB == 0 && size > 0
    ensures size >= Atr.MiB && (size - Atr.MiB) % Atr.MiB == 0
  {
  }

  /** Stores made after `prior` continue both the register file and the trace `prior` left. */
  lemma Extend(m: map<nat, bv32>, prior: seq<RegWrite>, more: seq<RegWrite>, mid: map<nat, bv32>)
    requires mid == ApplyWrites(m, prior)
    ensures ApplyWrites(mid, more) == ApplyWrites(m, prior + more)
    ensures MmioSteps(prior + more) == MmioSteps(prior) + MmioSteps(more)
  {
    ApplyWritesAppend(m, prior, more);
    MmioStepsAppend(prior, more);
  }
}
