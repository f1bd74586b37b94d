/**
 * The state of one RK3399 PCIe PHY device and the driver operations that
 * change it: the offset table of `struct rockchip_pcie_phy`, and the lane
 * indices of the platform data (`struct rockchip_pcie_phy_plat`) that the
 * probe fills.
 *
 * The lane operations here read their lane from that platform data. The
 * driver as written reads it through `phy_plat`, which nothing assigns
 * (`PciePhy.ProbeLeavesOpsTableNull`); this class models the intended
 * reading (`PciePhy.ProbedLanePowerOff`).
 *
 * `grf` is the GRF as the PHY sees it; `log` records every store, reset
 * assert, clock call and status poll in order. Each operation states the
 * events it appends and that `grf` is the old GRF with those events' stores
 * merged in (`GrfAfter`).
 */
module PhyDevice {
  import opened Hw
  import opened Grf
  import opened PciePhy

  class Phy {
    /** `phy_data`: the GRF offsets, once the probe has found them. */
    var data: Option<PhyData>
    /** The platform data's `index` for each lane, as the probe sets it. */
    var index: seq<bv32>
    /**
     * Whether the reference clock is enabled. Every lane's handle names the
     * same `refclk` clock of the device, so there is one clock for all lanes.
     */
    var refclkOn: bool
    var grf: map<nat, bv32>
    var log: seq<Event>

    ghost predicate Valid()
      reads this
    {
      && |index| == PHY_MAX_LANE_NUM
      && forall i :: 0 <= i < PHY_MAX_LANE_NUM ==> index[i] < 4
    }

    /** The driver data and the lane indices are as they were. */
    twostate predicate SetupKept()
      reads this
    {
      data == old(data) && index == old(index)
    }

    /** A zeroed device over GRF contents `m`, before its probe. */
    constructor (m: map<nat, bv32>)
      ensures Valid()
      ensures data == None && index == [0, 0, 0, 0] && !refclkOn
      ensures grf == m && log == []
    {
      data := None;
      index := [0, 0, 0, 0];
      refclkOn := false;
      grf := m;
      log := [];
    }

    /** `regmap_write` to the GRF: the word merged in under its write mask. */
    method Store(addr: nat, w: bv32)
      requires Valid()
      modifies this
      ensures Valid() && SetupKept() && refclkOn == old(refclkOn)
      ensures log == old(log) + [Event.Store(RegWrite(addr, w))]
      ensures grf == GrfAfter(old(grf), [Event.Store(RegWrite(addr, w))])
    {
      var e := Event.Store(RegWrite(addr, w));
      GrfAfterSnoc(grf, [], e);
      assert [] + [e] == [e];
      grf := grf[addr := GrfWrite(Reg(grf, addr), w)];
      log := log + [e];
    }

    /** Records a call that stores nothing. */
    method Record(e: Event)
      requires Valid() && !e.Store?
      modifies this
      ensures Valid() && SetupKept() && refclkOn == old(refclkOn)
      ensures log == old(log) + [e]
      ensures grf == old(grf)
    {
      log := log + [e];
    }

    /** Polls the status register and records the outcome. */
    method PollStatus(samples: seq<bv32>, mask: bv32, want: bv32) returns (ret: int)
      requires Valid()
      modifies this
      ensures Valid() && SetupKept() && refclkOn == old(refclkOn)
      ensures ret == 0 <==> PollSucceeds(samples, mask, want)
      ensures ret != 0 ==> ret == -ETIMEDOUT
      ensures log == old(log) + [StatusPoll(mask, want, ret == 0)]
      ensures grf == old(grf)
    {
      var taken;
      ret, taken := Poll(samples, mask, want);
      Record(StatusPoll(mask, want, ret == 0));
    }

    /** `phy_wr_cfg`: writes `value` to test register `addr` through the configuration protocol. */
    method WrCfg(addr: bv32, value: bv32)
      requires Valid() && data.Some?
      modifies this
      ensures Valid() && SetupKept() && refclkOn == old(refclkOn)
      ensures log == old(log) + CfgEvents(data.value, addr, value)
      ensures grf == GrfAfter(old(grf), CfgEvents(data.value, addr, value))
    {
      ghost var g0 := grf;
      ghost var ev := CfgEvents(data.value, addr, value);
      Store(data.value.conf, CfgWord(addr, value));
      Store(data.value.conf, StrobeWord(WR_ENABLE));
      GrfAfterAppend(g0, [ev[0]], [ev[1]]);
      assert [ev[0]] + [ev[1]] == [ev[0], ev[1]];
      Store(data.value.conf, StrobeWord(WR_DISABLE));
      GrfAfterAppend(g0, [ev[0], ev[1]], [ev[2]]);
      assert [ev[0], ev[1]] + [ev[2]] == ev;
    }

    /** Power-on up to the first poll: the reset asserted, address 0x10 selected, the lane's idle-off bit cleared. */
    method PowerOnHeadSteps(id: nat, assertRet: int, lockSamples: seq<bv32>) returns (ret: int)
      requires Valid() && data.Some? && id < PHY_MAX_LANE_NUM
      requires assertRet == 0
      modifies this
      ensures Valid() && SetupKept() && refclkOn == old(refclkOn)
      ensures ret == 0 <==> PollSucceeds(lockSamples, PHY_PLL_LOCKED, 0)
      ensures ret != 0 ==> ret == -ETIMEDOUT
      ensures var ev := LockPhase(data.value, id, index[id], ret == 0);
        && log == old(log) + ev
        && grf == GrfAfter(old(grf), ev)
    {
      ghost var g0 := grf;
      ghost var l0 := log;
      var d := data.value;
      Record(AssertReset(id));
      ghost var e0 := AssertReset(id);
      ghost var e1 := Event.Store(RegWrite(d.conf, SelectWord(PHY_CFG_PLL_LOCK)));
      ghost var e2 := Event.Store(RegWrite(d.laneoff, IdleWord(0, index[id])));
      Store(d.conf, SelectWord(PHY_CFG_PLL_LOCK));
      GrfAfterSnoc(g0, [], e0);
      assert [] + [e0] == [e0];
      GrfAfterAppend(g0, [e0], [e1]);
      assert [e0] + [e1] == [e0, e1];
      Store(d.laneoff, IdleWord(0, index[id]));
      GrfAfterAppend(g0, [e0, e1], [e2]);
      assert [e0, e1] + [e2] == [e0, e1, e2];
      ghost var g3 := grf;
      ret := PollStatus(lockSamples, PHY_PLL_LOCKED, 0);
      ghost var e3 := StatusPoll(PHY_PLL_LOCKED, 0, ret == 0);
      GrfAfterSnoc(g0, [e0, e1, e2], e3);
      assert [e0, e1, e2] + [e3] == LockPhase(d, id, index[id], ret == 0);
    }

    /** Both PLL settings, then the poll for PLL_OUTPUT. */
    method PllSteps(outputSamples: seq<bv32>) returns (ret: int)
      requires Valid() && data.Some?
      modifies this
      ensures Valid() && SetupKept() && refclkOn == old(refclkOn)
      ensures ret == 0 <==> PollSucceeds(outputSamples, PHY_PLL_OUTPUT, PHY_PLL_OUTPUT)
      ensures ret != 0 ==> ret == -ETIMEDOUT
      ensures var ev := PllSetup(data.value) + [StatusPoll(PHY_PLL_OUTPUT, PHY_PLL_OUTPUT, ret == 0)];
        && log == old(log) + ev
        && grf == GrfAfter(old(grf), ev)
    {
      ghost var g0 := grf;
      var d := data.value;
      ghost var a := CfgEvents(d, PHY_CFG_CLK_TEST, PHY_CFG_SEPE_RATE);
      ghost var b := CfgEvents(d, PHY_CFG_CLK_SCC, PHY_CFG_PLL_100M);
      WrCfg(PHY_CFG_CLK_TEST, PHY_CFG_SEPE_RATE);
      WrCfg(PHY_CFG_CLK_SCC, PHY_CFG_PLL_100M);
      GrfAfterAppend(g0, a, b);
      ret := PollStatus(outputSamples, PHY_PLL_OUTPUT, PHY_PLL_OUTPUT);
      GrfAfterSnoc(g0, a + b, StatusPoll(PHY_PLL_OUTPUT, PHY_PLL_OUTPUT, ret == 0));
    }

    /** Address 0x10 selected again, then the poll for PLL_LOCKED clear. */
    method RelockSteps(relockSamples: seq<bv32>) returns (ret: int)
      requires Valid() && data.Some?
      modifies this
      ensures Valid() && SetupKept() && refclkOn == old(refclkOn)
      ensures ret == 0 <==> PollSucceeds(relockSamples, PHY_PLL_LOCKED, 0)
      ensures ret != 0 ==> ret == -ETIMEDOUT
      ensures var ev := [Event.Store(RegWrite(data.value.conf, SelectWord(PHY_CFG_PLL_LOCK))), StatusPoll(PHY_PLL_LOCKED, 0, ret == 0)];
        && log == old(log) + ev
        && grf == GrfAfter(old(grf), ev)
    {
      ghost var g0 := grf;
      ghost var e0 := Event.Store(RegWrite(data.value.conf, SelectWord(PHY_CFG_PLL_LOCK)));
      Store(data.value.conf, SelectWord(PHY_CFG_PLL_LOCK));
      ret := PollStatus(relockSamples, PHY_PLL_LOCKED, 0);
      GrfAfterSnoc(g0, [e0], StatusPoll(PHY_PLL_LOCKED, 0, ret == 0));
      assert [e0] + [StatusPoll(PHY_PLL_LOCKED, 0, ret == 0)] == [e0, StatusPoll(PHY_PLL_LOCKED, 0, ret == 0)];
    }

    /**
     * `rockchip_pcie_phy_power_on` for lane `id`: the result, the calls and
     * the GRF are those of `PowerOnRun` with each poll's outcome decided by
     * its samples.
     */
    method PowerOn(id: nat, assertRet: int, lockSamples: seq<bv32>, outputSamples: seq<bv32>, relockSamples: seq<bv32>)
      returns (ret: int)
      requires Valid() && data.Some? && id < PHY_MAX_LANE_NUM
      modifies this
      ensures Valid() && SetupKept() && refclkOn == old(refclkOn)
      ensures var run := PowerOnRun(data.value, id, index[id], assertRet,
                                    PollSucceeds(lockSamples, PHY_PLL_LOCKED, 0),
                                    PollSucceeds(outputSamples, PHY_PLL_OUTPUT, PHY_PLL_OUTPUT),
                                    PollSucceeds(relockSamples, PHY_PLL_LOCKED, 0));
        && ret == run.ret
        && log == old(log) + run.events
        && grf == GrfAfter(old(grf), run.events)
    {
      ghost var g0 := grf;
      ghost var l0 := log;
      ghost var d := data.value;
      ghost var output := PollSucceeds(outputSamples, PHY_PLL_OUTPUT, PHY_PLL_OUTPUT);
      ghost var relock := PollSucceeds(relockSamples, PHY_PLL_LOCKED, 0);
      if assertRet != 0 {
        Record(AssertReset(id));
        GrfAfterNoStores(g0, [AssertReset(id)]);
        return assertRet;
      }
      ret := PowerOnHeadSteps(id, assertRet, lockSamples);
      ghost var e1 := LockPhase(d, id, index[id], ret == 0);
      if ret != 0 {
        Record(AssertReset(id));
        GrfAfterSnoc(g0, e1, AssertReset(id));
        AppendAssoc(l0, e1, [AssertReset(id)]);
        return;
      }
      ret := PowerOnRestSteps(id, outputSamples, relockSamples);
      ghost var rest := PowerOnRest(d, id, output, relock);
      GrfAfterAppend(g0, e1, rest.events);
      AppendAssoc(l0, e1, rest.events);
    }

    /** Power-on after the lock poll: the calls and result of `PowerOnRest`. */
    method PowerOnRestSteps(id: nat, outputSamples: seq<bv32>, relockSamples: seq<bv32>) returns (ret: int)
      requires Valid() && data.Some?
      modifies this
      ensures Valid() && SetupKept() && refclkOn == old(refclkOn)
      ensures var rest := PowerOnRest(data.value, id, PollSucceeds(outputSamples, PHY_PLL_OUTPUT, PHY_PLL_OUTPUT),
                                      PollSucceeds(relockSamples, PHY_PLL_LOCKED, 0));
        && ret == rest.ret
        && log == old(log) + rest.events
        && grf == GrfAfter(old(grf), rest.events)
    {
      ghost var g0 := grf;
      ghost var d := data.value;
      ret := PllSteps(outputSamples);
      ghost var e2 := PllSetup(d) + [StatusPoll(PHY_PLL_OUTPUT, PHY_PLL_OUTPUT, ret == 0)];
      if ret != 0 {
        Record(AssertReset(id));
        GrfAfterSnoc(g0, e2, AssertReset(id));
        return;
      }
      ret := RelockSteps(relockSamples);
      ghost var tail := [Event.Store(RegWrite(d.conf, SelectWord(PHY_CFG_PLL_LOCK))), StatusPoll(PHY_PLL_LOCKED, 0, ret == 0)];
      GrfAfterAppend(g0, e2, tail);
      if ret != 0 {
        Record(AssertReset(id));
        GrfAfterSnoc(g0, e2 + tail, AssertReset(id));
        return;
      }
    }

    /**
     * `rockchip_pcie_phy_power_off` for lane `id`: the lane set idle, then
     * the reset asserted; the result is the assert's.
     */
    method PowerOff(id: nat, assertRet: int) returns (ret: int)
      requires Valid() && data.Some? && id < PHY_MAX_LANE_NUM
      modifies this
      ensures Valid() && SetupKept() && refclkOn == old(refclkOn)
      ensures var run := PowerOffRun(data.value, id, index[id], assertRet);
        && ret == run.ret
        && log == old(log) + run.events
        && grf == GrfAfter(old(grf), run.events)
    {
      ghost var g0 := grf;
      ghost var e0 := Event.Store(RegWrite(data.value.laneoff, IdleWord(PHY_LANE_IDLE_OFF, index[id])));
      Store(data.value.laneoff, IdleWord(PHY_LANE_IDLE_OFF, index[id]));
      Record(AssertReset(id));
      GrfAfterSnoc(g0, [e0], AssertReset(id));
      assert [e0] + [AssertReset(id)] == [e0, AssertReset(id)];
      ret := assertRet;
    }

    /**
     * `rockchip_pcie_phy_init` for lane `id`: the calls of `InitRun`; the
     * shared reference clock ends up enabled exactly when init succeeds, and
     * is left as it was when enabling it fails. A failed init of one lane
     * turns the clock off for every lane.
     */
    method Init(id: nat, clkRet: int, assertRet: int) returns (ret: int)
      requires Valid() && id < PHY_MAX_LANE_NUM
      modifies this
      ensures Valid() && SetupKept()
      ensures var run := InitRun(id, clkRet, assertRet);
        && ret == run.ret
        && log == old(log) + run.events
      ensures grf == old(grf)
      ensures refclkOn == if clkRet != 0 then old(refclkOn) else ret == 0
    {
      Record(EnableRefclk(id));
      if clkRet != 0 {
        return clkRet;
      }
      refclkOn := true;
      Record(AssertReset(id));
      if assertRet != 0 {
        Record(DisableRefclk(id));
        refclkOn := false;
        return assertRet;
      }
      ret := 0;
    }

    /**
     * `rockchip_pcie_phy_exit` for lane `id`: the shared reference clock
     * disabled, for every lane.
     */
    method Exit(id: nat) returns (ret: int)
      requires Valid() && id < PHY_MAX_LANE_NUM
      modifies this
      ensures Valid() && SetupKept()
      ensures ret == ExitRun(id).ret
      ensures log == old(log) + ExitRun(id).events
      ensures grf == old(grf)
      ensures !refclkOn
    {
      Record(DisableRefclk(id));
      refclkOn := false;
      ret := 0;
    }

    /**
     * `rockchip_pcie_phy_probe`: the driver data kept, then the regmap, the
     * `#phy-cells` count and each lane's clock and reset handles looked up;
     * the result and the lanes indexed are `ProbeRun`'s.
     */
    method Probe(driverData: Option<PhyData>, regmapRet: int, cellsRet: int, cells: nat,
                 clkRets: seq<int>, rstRets: seq<int>) returns (ret: int)
      requires Valid()
      requires |clkRets| == PHY_MAX_LANE_NUM && |rstRets| == PHY_MAX_LANE_NUM
      modifies this
      ensures Valid()
      ensures var o := ProbeRun(driverData, regmapRet, cellsRet, cells, clkRets, rstRets);
        && ret == o.ret
        && index == IndexedLanes(old(index), o.indexed)
      ensures data == driverData
      ensures grf == old(grf) && log == old(log) && refclkOn == old(refclkOn)
    {
      data := driverData;
      if driverData.None? {
        return -EINVAL;
      }
      if regmapRet != 0 {
        return regmapRet;
      }
      if cellsRet != 0 {
        return cellsRet;
      }
      var phyNum := if cells == 0 then 1 else PHY_MAX_LANE_NUM;
      var i := 0;
      while i < phyNum
        invariant phyNum == PhyNum(cells)
        invariant 0 <= i <= phyNum
        invariant Valid() && data == driverData
        invariant grf == old(grf) && log == old(log) && refclkOn == old(refclkOn)
        invariant index == IndexedLanes(old(index), i)
        invariant LanesOutcome(clkRets, rstRets, i, phyNum) == LanesOutcome(clkRets, rstRets, 0, phyNum)
      {
        if clkRets[i] != 0 {
          return clkRets[i];
        }
        if rstRets[i] != 0 {
          return rstRets[i];
        }
        index := index[i := i as bv32];
        i := i + 1;
      }
      ret := 0;
    }
  }
}
