/**
 * The RK3399 PCIe PHY (`phy-rockchip-pcie-new.c`): up to four lanes driven
 * through three write-masked GRF registers, a reference clock and a reset
 * line per lane.
 *
 * The reset and clock providers, the syscon regmap lookup and the device-tree
 * reads are outcome parameters. Each status poll is the sequence of status
 * reads that fit before its timeout. `log` records every call the driver
 * makes, in order; `grf` holds the register contents that result.
 */
module PciePhy {
  import opened Hw
  import opened Grf

  const PHY_MAX_LANE_NUM: nat := 4

  /** Test-register addresses and values of the configuration protocol. */
  const PHY_CFG_PLL_LOCK: bv32 := 0x10
  const PHY_CFG_CLK_TEST: bv32 := 0x10
  const PHY_CFG_CLK_SCC: bv32 := 0x12
  const PHY_CFG_SEPE_RATE: bv32 := 0x8
  const PHY_CFG_PLL_100M: bv32 := 0x8

  /** Status bits. */
  const PHY_PLL_LOCKED: bv32 := 0x200
  const PHY_PLL_OUTPUT: bv32 := 0x400

  const PHY_LANE_IDLE_OFF: bv32 := 1

  /** GRF offsets of the configuration, status and lane-off registers (`struct rockchip_pcie_phy_data`). */
  datatype PhyData = PhyData(conf: nat, status: nat, laneoff: nat)

  const RK3399_DATA: PhyData := PhyData(0xe220, 0xe2a4, 0xe214)

  /**
   * One call the driver makes. The reset and clock events name the lane
   * whose handle the call goes through; every lane's handles name the same
   * `phy` reset line and `refclk` clock of the device.
   */
  datatype Event =
    | Store(w: RegWrite)
    | AssertReset(lane: nat)
    | EnableRefclk(lane: nat)
    | DisableRefclk(lane: nat)
    | StatusPoll(mask: bv32, want: bv32, ok: bool)

  /** The GRF after the stores among `events`, each merged under its write mask. */
  function GrfAfter(m: map<nat, bv32>, events: seq<Event>): map<nat, bv32>
    decreases |events|
  {
    if events == [] then m
    else
      var prior := GrfAfter(m, events[..|events| - 1]);
      var e := events[|events| - 1];
      if e.Store? then prior[e.w.addr := GrfWrite(Reg(prior, e.w.addr), e.w.value)] else prior
  }

  lemma GrfAfterSnoc(m: map<nat, bv32>, a: seq<Event>, e: Event)
    ensures GrfAfter(m, a + [e]) ==
      if e.Store? then GrfAfter(m, a)[e.w.addr := GrfWrite(Reg(GrfAfter(m, a), e.w.addr), e.w.value)] else GrfAfter(m, a)
  {
    assert (a + [e])[..|a|] == a;
  }

  lemma {:induction false} GrfAfterAppend(m: map<nat, bv32>, a: seq<Event>, b: seq<Event>)
    ensures GrfAfter(GrfAfter(m, a), b) == GrfAfter(m, a + b)
    decreases |b|
  {
    if b == [] {
      assert a + b == a;
    } else {
      var b' := b[..|b| - 1];
      var e := b[|b| - 1];
      assert b == b' + [e];
      GrfAfterAppend(m, a, b');
      assert a + b == (a + b') + [e];
      GrfAfterSnoc(m, a + b', e);
    }
  }

  /** Events that store nothing leave the GRF alone. */
  lemma {:induction false} GrfAfterNoStores(m: map<nat, bv32>, events: seq<Event>)
    requires forall i :: 0 <= i < |events| ==> !events[i].Store?
    ensures GrfAfter(m, events) == m
    decreases |events|
  {
    if events != [] {
      GrfAfterNoStores(m, events[..|events| - 1]);
    }
  }

  /** `phy_wr_cfg`: the configuration word, then the write strobe enabled, then "disabled". */
  function CfgEvents(d: PhyData, addr: bv32, data: bv32): seq<Event>
  {
    [Store(RegWrite(d.conf, CfgWord(addr, data))),
     Store(RegWrite(d.conf, StrobeWord(WR_ENABLE))),
     Store(RegWrite(d.conf, StrobeWord(WR_DISABLE)))]
  }

  /**
   * The configuration register after `phy_wr_cfg`: bits 10:7 hold the data,
   * bits 6:1 the address and the strobe bit 0 is left at 1; bits 15:11 keep
   * their value.
   */
  lemma CfgEventsEffect(m: map<nat, bv32>, d: PhyData, addr: bv32, data: bv32)
    requires addr <= 0x3f && data <= 0xf
    ensures Reg(GrfAfter(m, CfgEvents(d, addr, data)), d.conf) == (Reg(m, d.conf) & 0xf800) | (data << 7) | (addr << 1) | 1
    ensures forall a :: a != d.conf ==> Reg(GrfAfter(m, CfgEvents(d, addr, data)), a) == Reg(m, a)
  {
    var ev := CfgEvents(d, addr, data);
    GrfAfterSnoc(m, [], ev[0]);
    assert [] + [ev[0]] == [ev[0]];
    GrfAfterSnoc(m, [ev[0]], ev[1]);
    assert [ev[0]] + [ev[1]] == [ev[0], ev[1]];
    GrfAfterSnoc(m, [ev[0], ev[1]], ev[2]);
    assert [ev[0], ev[1]] + [ev[2]] == ev;
    var c0 := Reg(m, d.conf);
    var c1 := GrfWrite(c0, CfgWord(addr, data));
    var c2 := GrfWrite(c1, StrobeWord(WR_ENABLE));
    DisableAfterEnable(c1);
    CfgStrobeValue(c0, addr, data);
    assert Reg(GrfAfter(m, ev), d.conf) == c2;
  }

  lemma CfgStrobeValue(c0: bv32, addr: bv32, data: bv32)
    requires addr <= 0x3f && data <= 0xf
    ensures GrfWrite(GrfWrite(c0, CfgWord(addr, data)), StrobeWord(WR_ENABLE)) == (c0 & 0xf800) | (data << 7) | (addr << 1) | 1
  {
  }

  /** The result of a driver operation and the calls it made. */
  datatype Run = Run(ret: int, events: seq<Event>)

  /** Address 0x10 selected and the lane's idle-off bit cleared. */
  function PowerOnHead(d: PhyData, index: bv32): seq<Event>
    requires index < 4
  {
    [Store(RegWrite(d.conf, SelectWord(PHY_CFG_PLL_LOCK))),
     Store(RegWrite(d.laneoff, IdleWord(0, index)))]
  }

  /** Both PLL settings through the configuration protocol. */
  function PllSetup(d: PhyData): seq<Event>
  {
    CfgEvents(d, PHY_CFG_CLK_TEST, PHY_CFG_SEPE_RATE) + CfgEvents(d, PHY_CFG_CLK_SCC, PHY_CFG_PLL_100M)
  }

  /** Power-on up to the first poll: the reset asserted, the head stores, the poll for PLL_LOCKED clear. */
  function LockPhase(d: PhyData, id: nat, index: bv32, lock: bool): seq<Event>
    requires index < 4
  {
    [AssertReset(id)] + PowerOnHead(d, index) + [StatusPoll(PHY_PLL_LOCKED, 0, lock)]
  }

  /**
   * Power-on after the lock poll succeeded: both PLL settings and the poll
   * for PLL_OUTPUT set, then address 0x10 selected again and the poll for
   * PLL_LOCKED clear; a timeout re-asserts the reset.
   */
  function PowerOnRest(d: PhyData, id: nat, output: bool, relock: bool): Run
  {
    var e2 := PllSetup(d) + [StatusPoll(PHY_PLL_OUTPUT, PHY_PLL_OUTPUT, output)];
    if !output then Run(-ETIMEDOUT, e2 + [AssertReset(id)])
    else
      var e3 := e2 + [Store(RegWrite(d.conf, SelectWord(PHY_CFG_PLL_LOCK))), StatusPoll(PHY_PLL_LOCKED, 0, relock)];
      if !relock then Run(-ETIMEDOUT, e3 + [AssertReset(id)])
      else Run(0, e3)
  }

  /**
   * `rockchip_pcie_phy_power_on` for lane `id` with index `index`, given the
   * reset-assert result and whether each of the three polls saw its
   * condition: PLL_LOCKED clear, PLL_OUTPUT set, PLL_LOCKED clear again.
   */
  function PowerOnRun(d: PhyData, id: nat, index: bv32, assertRet: int, lock: bool, output: bool, relock: bool): Run
    requires index < 4
  {
    if assertRet != 0 then Run(assertRet, [AssertReset(id)])
    else
      var e1 := LockPhase(d, id, index, lock);
      if !lock then Run(-ETIMEDOUT, e1 + [AssertReset(id)])
      else
        var rest := PowerOnRest(d, id, output, relock);
        Run(rest.ret, e1 + rest.events)
  }

  /** The status polls among `events`, in order. */
  function PollsIn(events: seq<Event>): seq<Event>
    decreases |events|
  {
    if events == [] then []
    else
      var front := PollsIn(events[..|events| - 1]);
      var e := events[|events| - 1];
      if e.StatusPoll? then front + [e] else front
  }

  lemma {:induction false} PollsInAppend(a: seq<Event>, b: seq<Event>)
    ensures PollsIn(a + b) == PollsIn(a) + PollsIn(b)
    decreases |b|
  {
    if b == [] {
      assert a + b == a;
    } else {
      assert (a + b)[..|a + b| - 1] == a + b[..|b| - 1];
      PollsInAppend(a, b[..|b| - 1]);
    }
  }

  /**
   * Power-on succeeds exactly when the reset is asserted and all three
   * polls see their condition. A failed assert returns its error; any poll
   * timeout returns -ETIMEDOUT.
   */
  lemma PowerOnResult(d: PhyData, id: nat, index: bv32, assertRet: int, lock: bool, output: bool, relock: bool)
    requires index < 4
    ensures var run := PowerOnRun(d, id, index, assertRet, lock, output, relock);
      && (run.ret == 0 <==> assertRet == 0 && lock && output && relock)
      && (assertRet != 0 ==> run.ret == assertRet)
      && (assertRet == 0 && run.ret != 0 ==> run.ret == -ETIMEDOUT)
  {
  }

  /**
   * The reset line is the first thing power-on touches and the last thing on
   * a poll timeout; a failed assert makes no other call. Nothing in power-on
   * releases the reset.
   */
  lemma PowerOnResetBrackets(d: PhyData, id: nat, index: bv32, assertRet: int, lock: bool, output: bool, relock: bool)
    requires index < 4
    ensures var run := PowerOnRun(d, id, index, assertRet, lock, output, relock);
      && run.events[0] == AssertReset(id)
      && (assertRet != 0 ==> run.events == [AssertReset(id)])
      && (assertRet == 0 && run.ret != 0 ==> run.events[|run.events| - 1] == AssertReset(id))
      && (forall i :: 0 <= i < |run.events| && run.events[i].AssertReset? ==> run.events[i].lane == id)
  {
  }

  /**
   * The polls run in a fixed order: PLL_LOCKED clear, PLL_OUTPUT set,
   * PLL_LOCKED clear; power-on stops at the first one that times out.
   */
  lemma PowerOnPollOrder(d: PhyData, id: nat, index: bv32, lock: bool, output: bool, relock: bool)
    requires index < 4
    ensures var run := PowerOnRun(d, id, index, 0, lock, output, relock);
      PollsIn(run.events) ==
        if !lock then [StatusPoll(PHY_PLL_LOCKED, 0, false)]
        else if !output then [StatusPoll(PHY_PLL_LOCKED, 0, true), StatusPoll(PHY_PLL_OUTPUT, PHY_PLL_OUTPUT, false)]
        else [StatusPoll(PHY_PLL_LOCKED, 0, true), StatusPoll(PHY_PLL_OUTPUT, PHY_PLL_OUTPUT, true),
              StatusPoll(PHY_PLL_LOCKED, 0, relock)]
  {
    var e1 := LockPhase(d, id, index, lock);
    LockPhasePolls(d, id, index, lock);
    var reassert := [AssertReset(id)];
    PollsInNone(reassert);
    var run := PowerOnRun(d, id, index, 0, lock, output, relock);
    if !lock {
      assert run.events == e1 + reassert;
      PollsInAppend(e1, reassert);
    } else {
      var rest := PowerOnRest(d, id, output, relock);
      assert run.events == e1 + rest.events;
      RestPolls(d, id, output, relock);
      PollsInAppend(e1, rest.events);
    }
  }

  /** The lock phase holds exactly one poll. */
  lemma LockPhasePolls(d: PhyData, id: nat, index: bv32, lock: bool)
    requires index < 4
    ensures PollsIn(LockPhase(d, id, index, lock)) == [StatusPoll(PHY_PLL_LOCKED, 0, lock)]
  {
    var e0 := [AssertReset(id)] + PowerOnHead(d, index);
    PollsInNone(e0);
    var p1 := [StatusPoll(PHY_PLL_LOCKED, 0, lock)];
    assert PollsIn(p1) == p1 by {
      assert p1[..0] == [];
    }
    PollsInAppend(e0, p1);
  }

  /** The polls of the rest of power-on: PLL_OUTPUT set, then, if that succeeded, PLL_LOCKED clear. */
  lemma RestPolls(d: PhyData, id: nat, output: bool, relock: bool)
    ensures PollsIn(PowerOnRest(d, id, output, relock).events) ==
      if !output then [StatusPoll(PHY_PLL_OUTPUT, PHY_PLL_OUTPUT, false)]
      else [StatusPoll(PHY_PLL_OUTPUT, PHY_PLL_OUTPUT, true), StatusPoll(PHY_PLL_LOCKED, 0, relock)]
  {
    var run := PowerOnRest(d, id, output, relock);
    var setup := PllSetup(d);
    PollsInNone(setup);
    var p2 := StatusPoll(PHY_PLL_OUTPUT, PHY_PLL_OUTPUT, output);
    var sel := Store(RegWrite(d.conf, SelectWord(PHY_CFG_PLL_LOCK)));
    var p3 := StatusPoll(PHY_PLL_LOCKED, 0, relock);
    PollsInSnoc(setup, p2);
    var e2 := setup + [p2];
    if !output {
      assert run.events == e2 + [AssertReset(id)];
      PollsInSnoc(e2, AssertReset(id));
    } else {
      PollsInSnoc(e2, sel);
      PollsInSnoc(e2 + [sel], p3);
      assert e2 + [sel, p3] == e2 + [sel] + [p3];
      if !relock {
        assert run.events == e2 + [sel] + [p3] + [AssertReset(id)];
        PollsInSnoc(e2 + [sel] + [p3], AssertReset(id));
      } else {
        assert run.events == e2 + [sel] + [p3];
      }
    }
  }

  lemma PollsInSnoc(a: seq<Event>, e: Event)
    ensures PollsIn(a + [e]) == if e.StatusPoll? then PollsIn(a) + [e] else PollsIn(a)
  {
    assert (a + [e])[..|a|] == a;
  }

  lemma {:induction false} PollsInNone(events: seq<Event>)
    requires forall i :: 0 <= i < |events| ==> !events[i].StatusPoll?
    ensures PollsIn(events) == []
    decreases |events|
  {
    if events != [] {
      PollsInNone(events[..|events| - 1]);
    }
  }

  /**
   * After a successful power-on the configuration register holds address 0x10
   * in bits 6:1, data 8 in bits 10:7 and the strobe bit set, bits 15:11 are
   * kept, and the lane's idle-off bit is clear with every other lane-off bit
   * kept.
   */
  lemma PowerOnRegisters(m: map<nat, bv32>, d: PhyData, id: nat, index: bv32)
    requires index < 4 && d.conf != d.laneoff
    ensures var g := GrfAfter(m, PowerOnRun(d, id, index, 0, true, true, true).events);
      && Reg(g, d.conf) == (Reg(m, d.conf) & 0xf800) | 0x421
      && Reg(g, d.laneoff) & IdleBit(index) == 0
      && Reg(g, d.laneoff) & !IdleBit(index) == Reg(m, d.laneoff) & !IdleBit(index) & 0xffff
      && forall a :: a != d.conf && a != d.laneoff ==> Reg(g, a) == Reg(m, a)
  {
    var g1 := HeadEffect(m, d, id, index);
    var g3 := PllEffect(g1, d);
    var g4 := TailEffect(g3, d);
    PowerOnSplit(m, d, id, index);
    assert GrfAfter(m, PowerOnRun(d, id, index, 0, true, true, true).events) == g4;
    ConfAfterPowerOn(Reg(m, d.conf));
  }

  /** Both PLL settings: the configuration register takes its final data and address, nothing else changes. */
  lemma PllEffect(g1: map<nat, bv32>, d: PhyData) returns (g3: map<nat, bv32>)
    ensures g3 == GrfAfter(GrfAfter(g1, CfgEvents(d, PHY_CFG_CLK_TEST, PHY_CFG_SEPE_RATE)), CfgEvents(d, PHY_CFG_CLK_SCC, PHY_CFG_PLL_100M))
    ensures var c2 := (Reg(g1, d.conf) & 0xf800) | (PHY_CFG_SEPE_RATE << 7) | (PHY_CFG_CLK_TEST << 1) | 1;
      Reg(g3, d.conf) == (c2 & 0xf800) | (PHY_CFG_PLL_100M << 7) | (PHY_CFG_CLK_SCC << 1) | 1
    ensures forall a :: a != d.conf ==> Reg(g3, a) == Reg(g1, a)
  {
    CfgEventsEffect(g1, d, PHY_CFG_CLK_TEST, PHY_CFG_SEPE_RATE);
    var g2 := GrfAfter(g1, CfgEvents(d, PHY_CFG_CLK_TEST, PHY_CFG_SEPE_RATE));
    CfgEventsEffect(g2, d, PHY_CFG_CLK_SCC, PHY_CFG_PLL_100M);
    g3 := GrfAfter(g2, CfgEvents(d, PHY_CFG_CLK_SCC, PHY_CFG_PLL_100M));
  }

  /** The re-select of address 0x10 and the last poll. */
  lemma TailEffect(g3: map<nat, bv32>, d: PhyData) returns (g4: map<nat, bv32>)
    ensures g4 == GrfAfter(g3, [Store(RegWrite(d.conf, SelectWord(PHY_CFG_PLL_LOCK))), StatusPoll(PHY_PLL_LOCKED, 0, true)])
    ensures Reg(g4, d.conf) == GrfWrite(Reg(g3, d.conf), SelectWord(PHY_CFG_PLL_LOCK))
    ensures forall a :: a != d.conf ==> Reg(g4, a) == Reg(g3, a)
  {
    var tail := [Store(RegWrite(d.conf, SelectWord(PHY_CFG_PLL_LOCK))), StatusPoll(PHY_PLL_LOCKED, 0, true)];
    GrfAfterSnoc(g3, [], tail[0]);
    assert [] + [tail[0]] == [tail[0]];
    GrfAfterSnoc(g3, [tail[0]], tail[1]);
    assert [tail[0]] + [tail[1]] == tail;
    g4 := GrfAfter(g3, tail);
  }

  /** The successful power-on's effect on the GRF, phase by phase (the polls store nothing). */
  lemma PowerOnSplit(m: map<nat, bv32>, d: PhyData, id: nat, index: bv32)
    requires index < 4
    ensures var cfgA := CfgEvents(d, PHY_CFG_CLK_TEST, PHY_CFG_SEPE_RATE);
      var cfgB := CfgEvents(d, PHY_CFG_CLK_SCC, PHY_CFG_PLL_100M);
      var tail := [Store(RegWrite(d.conf, SelectWord(PHY_CFG_PLL_LOCK))), StatusPoll(PHY_PLL_LOCKED, 0, true)];
      GrfAfter(m, PowerOnRun(d, id, index, 0, true, true, true).events) ==
        GrfAfter(GrfAfter(GrfAfter(GrfAfter(m, LockPhase(d, id, index, true)), cfgA), cfgB), tail)
  {
    var head := LockPhase(d, id, index, true);
    GrfAfterAppend(m, head, PowerOnRest(d, id, true, true).events);
    RestSplit(GrfAfter(m, head), d, id);
  }

  /** The successful rest of power-on, phase by phase (the output poll stores nothing). */
  lemma RestSplit(g: map<nat, bv32>, d: PhyData, id: nat)
    ensures var cfgA := CfgEvents(d, PHY_CFG_CLK_TEST, PHY_CFG_SEPE_RATE);
      var cfgB := CfgEvents(d, PHY_CFG_CLK_SCC, PHY_CFG_PLL_100M);
      var tail := [Store(RegWrite(d.conf, SelectWord(PHY_CFG_PLL_LOCK))), StatusPoll(PHY_PLL_LOCKED, 0, true)];
      GrfAfter(g, PowerOnRest(d, id, true, true).events) == GrfAfter(GrfAfter(GrfAfter(g, cfgA), cfgB), tail)
  {
    var cfgA := CfgEvents(d, PHY_CFG_CLK_TEST, PHY_CFG_SEPE_RATE);
    var cfgB := CfgEvents(d, PHY_CFG_CLK_SCC, PHY_CFG_PLL_100M);
    var poll := [StatusPoll(PHY_PLL_OUTPUT, PHY_PLL_OUTPUT, true)];
    var tail := [Store(RegWrite(d.conf, SelectWord(PHY_CFG_PLL_LOCK))), StatusPoll(PHY_PLL_LOCKED, 0, true)];
    GrfAfterAppend(g, cfgA, cfgB);
    GrfAfterNoStores(GrfAfter(g, cfgA + cfgB), poll);
    GrfAfterAppend(g, cfgA + cfgB, poll);
    GrfAfterAppend(g, cfgA + cfgB + poll, tail);
    assert PowerOnRest(d, id, true, true).events == cfgA + cfgB + poll + tail;
  }

  /** The GRF after the reset assert, the head stores and the first poll. */
  lemma HeadEffect(m: map<nat, bv32>, d: PhyData, id: nat, index: bv32) returns (g: map<nat, bv32>)
    requires index < 4 && d.conf != d.laneoff
    ensures g == GrfAfter(m, LockPhase(d, id, index, true))
    ensures Reg(g, d.conf) == GrfWrite(Reg(m, d.conf), SelectWord(PHY_CFG_PLL_LOCK))
    ensures Reg(g, d.laneoff) == GrfWrite(Reg(m, d.laneoff), IdleWord(0, index))
    ensures Reg(g, d.laneoff) & IdleBit(index) == 0
    ensures Reg(g, d.laneoff) & !IdleBit(index) == Reg(m, d.laneoff) & !IdleBit(index) & 0xffff
    ensures forall a :: a != d.conf && a != d.laneoff ==> Reg(g, a) == Reg(m, a)
  {
    var ev := LockPhase(d, id, index, true);
    assert ev == [ev[0], ev[1], ev[2], ev[3]];
    GrfAfterSnoc(m, [], ev[0]);
    assert [] + [ev[0]] == [ev[0]];
    GrfAfterSnoc(m, [ev[0]], ev[1]);
    assert [ev[0]] + [ev[1]] == [ev[0], ev[1]];
    GrfAfterSnoc(m, [ev[0], ev[1]], ev[2]);
    assert [ev[0], ev[1]] + [ev[2]] == [ev[0], ev[1], ev[2]];
    GrfAfterSnoc(m, [ev[0], ev[1], ev[2]], ev[3]);
    assert [ev[0], ev[1], ev[2]] + [ev[3]] == ev;
    IdleEffect(Reg(m, d.laneoff), 0, index);
    g := GrfAfter(m, ev);
  }

  /** The configuration word through select 0x10, both PLL settings and the re-select. */
  lemma ConfAfterPowerOn(c: bv32)
    ensures var c1 := GrfWrite(c, SelectWord(PHY_CFG_PLL_LOCK));
      var c2 := (c1 & 0xf800) | (PHY_CFG_SEPE_RATE << 7) | (PHY_CFG_CLK_TEST << 1) | 1;
      var c3 := (c2 & 0xf800) | (PHY_CFG_PLL_100M << 7) | (PHY_CFG_CLK_SCC << 1) | 1;
      GrfWrite(c3, SelectWord(PHY_CFG_PLL_LOCK)) == (c & 0xf800) | 0x421
  {
  }

  /**
   * `rockchip_pcie_phy_power_off`: the lane's idle-off bit set, then the
   * reset asserted; the result is the assert's.
   */
  function PowerOffRun(d: PhyData, id: nat, index: bv32, assertRet: int): Run
    requires index < 4
  {
    Run(assertRet, [Store(RegWrite(d.laneoff, IdleWord(PHY_LANE_IDLE_OFF, index))), AssertReset(id)])
  }

  /** Power-off sets the lane's idle-off bit, keeps every other bit of the lane-off register and touches no other register. */
  lemma PowerOffRegisters(m: map<nat, bv32>, d: PhyData, id: nat, index: bv32, assertRet: int)
    requires index < 4
    ensures var g := GrfAfter(m, PowerOffRun(d, id, index, assertRet).events);
      && Reg(g, d.laneoff) & IdleBit(index) == IdleBit(index)
      && Reg(g, d.laneoff) & !IdleBit(index) == Reg(m, d.laneoff) & !IdleBit(index) & 0xffff
      && forall a :: a != d.laneoff ==> Reg(g, a) == Reg(m, a)
  {
    var ev := PowerOffRun(d, id, index, assertRet).events;
    GrfAfterSnoc(m, [], ev[0]);
    assert [] + [ev[0]] == [ev[0]];
    GrfAfterSnoc(m, [ev[0]], ev[1]);
    assert [ev[0]] + [ev[1]] == ev;
    IdleEffect(Reg(m, d.laneoff), PHY_LANE_IDLE_OFF, index);
  }

  /**
   * Power-off undoes what a successful power-on did to the lane-off
   * register: afterwards it holds what power-off alone would have left, so
   * the lane is idle again and every other lane's bit is back where it started.
   */
  lemma PowerOnThenOff(m: map<nat, bv32>, d: PhyData, id: nat, index: bv32, assertRet: int)
    requires index < 4 && d.conf != d.laneoff
    ensures var on := PowerOnRun(d, id, index, 0, true, true, true);
      var off := PowerOffRun(d, id, index, assertRet);
      Reg(GrfAfter(m, on.events + off.events), d.laneoff) == Reg(GrfAfter(m, off.events), d.laneoff)
  {
    var on := PowerOnRun(d, id, index, 0, true, true, true);
    var off := PowerOffRun(d, id, index, assertRet);
    var g1 := GrfAfter(m, on.events);
    GrfAfterAppend(m, on.events, off.events);
    var x := Reg(m, d.laneoff);
    assert Reg(g1, d.laneoff) == GrfWrite(x, IdleWord(0, index)) by {
      PowerOnLaneoff(m, d, id, index);
    }
    assert Reg(GrfAfter(g1, off.events), d.laneoff) == GrfWrite(Reg(g1, d.laneoff), IdleWord(PHY_LANE_IDLE_OFF, index)) by {
      PowerOffLaneoff(g1, d, id, index, assertRet);
    }
    assert Reg(GrfAfter(m, off.events), d.laneoff) == GrfWrite(x, IdleWord(PHY_LANE_IDLE_OFF, index)) by {
      PowerOffLaneoff(m, d, id, index, assertRet);
    }
    IdleOnThenOff(x, index);
  }

  /** The lane-off register after power-off: the old word with the lane's idle-off store merged in. */
  lemma PowerOffLaneoff(m: map<nat, bv32>, d: PhyData, id: nat, index: bv32, assertRet: int)
    requires index < 4
    ensures Reg(GrfAfter(m, PowerOffRun(d, id, index, assertRet).events), d.laneoff) ==
      GrfWrite(Reg(m, d.laneoff), IdleWord(PHY_LANE_IDLE_OFF, index))
  {
    var ev := PowerOffRun(d, id, index, assertRet).events;
    GrfAfterSnoc(m, [], ev[0]);
    assert [] + [ev[0]] == [ev[0]];
    GrfAfterSnoc(m, [ev[0]], ev[1]);
    assert [ev[0]] + [ev[1]] == ev;
  }

  /** The lane-off register after a successful power-on: the old word with the lane's idle-off bit cleared by a store. */
  lemma PowerOnLaneoff(m: map<nat, bv32>, d: PhyData, id: nat, index: bv32)
    requires index < 4 && d.conf != d.laneoff
    ensures Reg(GrfAfter(m, PowerOnRun(d, id, index, 0, true, true, true).events), d.laneoff) ==
      GrfWrite(Reg(m, d.laneoff), IdleWord(0, index))
  {
    var g1 := HeadEffect(m, d, id, index);
    var g3 := PllEffect(g1, d);
    var g4 := TailEffect(g3, d);
    PowerOnSplit(m, d, id, index);
  }

  /** Setting the idle-off bit after clearing it gives the word that setting it alone gives. */
  lemma IdleOnThenOff(x: bv32, index: bv32)
    requires index < 4
    ensures GrfWrite(GrfWrite(x, IdleWord(0, index)), IdleWord(PHY_LANE_IDLE_OFF, index)) ==
      GrfWrite(x, IdleWord(PHY_LANE_IDLE_OFF, index))
  {
  }

  /**
   * `rockchip_pcie_phy_init`: enable the reference clock, then assert the
   * reset; a failed assert disables the clock again. The result is the first
   * failure or 0.
   */
  function InitRun(id: nat, clkRet: int, assertRet: int): Run
  {
    if clkRet != 0 then Run(clkRet, [EnableRefclk(id)])
    else if assertRet != 0 then Run(assertRet, [EnableRefclk(id), AssertReset(id), DisableRefclk(id)])
    else Run(0, [EnableRefclk(id), AssertReset(id)])
  }

  /**
   * Init succeeds exactly when both calls do and returns the first failure
   * otherwise; once the clock has been enabled, a failure ends by disabling
   * it, so a failed init never leaves the clock running. Init stores nothing.
   */
  lemma InitResult(m: map<nat, bv32>, id: nat, clkRet: int, assertRet: int)
    ensures var run := InitRun(id, clkRet, assertRet);
      && (run.ret == 0 <==> clkRet == 0 && assertRet == 0)
      && (run.ret != 0 ==> run.ret == if clkRet != 0 then clkRet else assertRet)
      && (clkRet == 0 && run.ret != 0 ==> run.events[|run.events| - 1] == DisableRefclk(id))
      && (run.ret == 0 ==> forall i :: 0 <= i < |run.events| ==> !run.events[i].DisableRefclk?)
      && GrfAfter(m, run.events) == m
  {
    var run := InitRun(id, clkRet, assertRet);
    GrfAfterNoStores(m, run.events);
  }

  /** `rockchip_pcie_phy_exit`: the reference clock disabled; it always succeeds. */
  function ExitRun(id: nat): Run
  {
    Run(0, [DisableRefclk(id)])
  }

  /** The probe's result and how many lanes got their index. */
  datatype ProbeOutcome = ProbeOutcome(ret: int, indexed: nat)

  /** `#phy-cells` of 0 means one PHY for all lanes, anything else one per lane. */
  function PhyNum(cells: nat): (n: nat)
    ensures 1 <= n <= PHY_MAX_LANE_NUM
    ensures n == 1 <==> cells == 0
    ensures cells != 0 ==> n == PHY_MAX_LANE_NUM
  {
    if cells == 0 then 1 else PHY_MAX_LANE_NUM
  }

  /**
   * The probe loop from lane `i` on: each lane needs its clock handle and
   * then its reset handle, and the loop stops at the first lookup that fails.
   */
  function LanesOutcome(clkRets: seq<int>, rstRets: seq<int>, i: nat, n: nat): ProbeOutcome
    requires i <= n <= |clkRets| && n <= |rstRets|
    decreases n - i
  {
    if i == n then ProbeOutcome(0, n)
    else if clkRets[i] != 0 then ProbeOutcome(clkRets[i], i)
    else if rstRets[i] != 0 then ProbeOutcome(rstRets[i], i)
    else LanesOutcome(clkRets, rstRets, i + 1, n)
  }

  /**
   * `rockchip_pcie_phy_probe`, given the driver data, the regmap lookup, the
   * `#phy-cells` read and each lane's clock and reset lookups.
   */
  function ProbeRun(driverData: Option<PhyData>, regmapRet: int, cellsRet: int, cells: nat,
                    clkRets: seq<int>, rstRets: seq<int>): ProbeOutcome
    requires |clkRets| == PHY_MAX_LANE_NUM && |rstRets| == PHY_MAX_LANE_NUM
  {
    if driverData.None? then ProbeOutcome(-EINVAL, 0)
    else if regmapRet != 0 then ProbeOutcome(regmapRet, 0)
    else if cellsRet != 0 then ProbeOutcome(cellsRet, 0)
    else LanesOutcome(clkRets, rstRets, 0, PhyNum(cells))
  }

  /**
   * The loop indexes lanes up to the first failed lookup; it returns 0
   * exactly when it indexes all `n` lanes, and otherwise the failed lookup's
   * error, the clock's before the reset's.
   */
  lemma {:induction false} LanesOutcomeSpec(clkRets: seq<int>, rstRets: seq<int>, i: nat, n: nat)
    requires i <= n <= |clkRets| && n <= |rstRets|
    ensures var o := LanesOutcome(clkRets, rstRets, i, n);
      && i <= o.indexed <= n
      && (forall j :: i <= j < o.indexed ==> clkRets[j] == 0 && rstRets[j] == 0)
      && (o.ret == 0 <==> o.indexed == n)
      && (o.indexed < n ==> o.ret == if clkRets[o.indexed] != 0 then clkRets[o.indexed] else rstRets[o.indexed])
    decreases n - i
  {
    if i < n && clkRets[i] == 0 && rstRets[i] == 0 {
      LanesOutcomeSpec(clkRets, rstRets, i + 1, n);
    }
  }

  /**
   * Probe succeeds exactly when the driver data and regmap are there, the
   * cell count reads, and every one of the `PhyNum(cells)` lanes gets both
   * handles; then every one of those lanes is indexed.
   */
  lemma ProbeResult(driverData: Option<PhyData>, regmapRet: int, cellsRet: int, cells: nat,
                    clkRets: seq<int>, rstRets: seq<int>)
    requires |clkRets| == PHY_MAX_LANE_NUM && |rstRets| == PHY_MAX_LANE_NUM
    ensures var o := ProbeRun(driverData, regmapRet, cellsRet, cells, clkRets, rstRets);
      && (o.ret == 0 <==>
            && driverData.Some? && regmapRet == 0 && cellsRet == 0
            && forall j :: 0 <= j < PhyNum(cells) ==> clkRets[j] == 0 && rstRets[j] == 0)
      && (o.ret == 0 ==> o.indexed == PhyNum(cells))
      && o.indexed <= PhyNum(cells)
      && (driverData.None? ==> o.ret == -EINVAL)
  {
    LanesOutcomeSpec(clkRets, rstRets, 0, PhyNum(cells));
  }

  /** The lane indices after the probe loop has indexed the first `k` lanes. */
  function IndexedLanes(prior: seq<bv32>, k: nat): (r: seq<bv32>)
    requires k <= |prior| <= PHY_MAX_LANE_NUM
    ensures |r| == |prior|
    ensures forall i :: 0 <= i < k ==> r[i] as int == i
    ensures forall i :: k <= i < |r| ==> r[i] == prior[i]
  {
    seq(|prior|, i requires 0 <= i < |prior| => if i < k then i as bv32 else prior[i])
  }

  /**
   * The private data the lane operations read through. `power_on`,
   * `power_off`, `init` and `exit` take their lane from `phy_plat[id]`, but
   * the probe fills the platform data instead and nothing assigns
   * `phy_plat`, so it keeps the zero-initialised NULL (`None`).
   */
  datatype Priv = Priv(phyData: Option<PhyData>, phyPlat: Option<seq<bv32>>)

  /** The stores `rockchip_pcie_phy_probe` makes into the private data, as written. */
  function ProbePriv(p: Priv, driverData: Option<PhyData>): Priv
  {
    p.(phyData := driverData)
  }

  /** The lane index an operation on lane `id` reads through `phy_plat`, if it points anywhere. */
  function OpsIndex(p: Priv, id: nat): Option<bv32>
  {
    if p.phyPlat.Some? && id < |p.phyPlat.value| then Some(p.phyPlat.value[id]) else None
  }

  /**
   * As written: a probe of a four-lane PHY whose lookups all succeed gives
   * platform lane 2 index 2, yet the table the lane operations read is still
   * NULL.
   */
  lemma ProbeLeavesOpsTableNull()
    ensures ProbeRun(Some(RK3399_DATA), 0, 0, 1, [0, 0, 0, 0], [0, 0, 0, 0]) == ProbeOutcome(0, 4)
    ensures IndexedLanes([0, 0, 0, 0], 4)[2] == 2
    ensures OpsIndex(ProbePriv(Priv(None, None), Some(RK3399_DATA)), 2) == None
  {
    LanesOutcomeSpec([0, 0, 0, 0], [0, 0, 0, 0], 0, 4);
  }

  /**
   * As intended: the lane operations use the platform data the probe fills.
   * After a successful probe lane `id` has index `id`, so power-off sets that
   * lane's own idle-off bit and keeps every other bit of the lane-off register.
   */
  lemma ProbedLanePowerOff(m: map<nat, bv32>, d: PhyData, regmapRet: int, cellsRet: int, cells: nat,
                           clkRets: seq<int>, rstRets: seq<int>, prior: seq<bv32>, id: nat, assertRet: int)
    requires |clkRets| == PHY_MAX_LANE_NUM && |rstRets| == PHY_MAX_LANE_NUM && |prior| == PHY_MAX_LANE_NUM
    requires ProbeRun(Some(d), regmapRet, cellsRet, cells, clkRets, rstRets).ret == 0
    requires id < PhyNum(cells)
    ensures var idx := IndexedLanes(prior, ProbeRun(Some(d), regmapRet, cellsRet, cells, clkRets, rstRets).indexed);
      && idx[id] == id as bv32
      && var g := GrfAfter(m, PowerOffRun(d, id, idx[id], assertRet).events);
      && Reg(g, d.laneoff) & IdleBit(id as bv32) == IdleBit(id as bv32)
      && Reg(g, d.laneoff) & !IdleBit(id as bv32) == Reg(m, d.laneoff) & !IdleBit(id as bv32) & 0xffff
  {
    ProbeResult(Some(d), regmapRet, cellsRet, cells, clkRets, rstRets);
    PowerOffRegisters(m, d, id, id as bv32, assertRet);
  }
}
