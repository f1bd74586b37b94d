/**
 * The RK3399 PCIe root-complex driver: the configuration-space proxy, the
 * ATR table builder, the port bring-up sequence and the lane count taken
 * from the device tree.
 *
 * The controller is a class whose register file (`regs`) changes under
 * 32-bit stores; every store, reset-line change, GPIO change, PHY call and
 * link poll is also appended to `trace`, so that the order of the bring-up
 * can be stated. Reset, GPIO and PHY providers are other drivers: their
 * outcomes are parameters, and the reset lines' state is a function of the
 * trace (`Held`).
 */
module RockchipPcie {
  import opened Hw
  import opened PciConfig
  import Atr

  /** Offsets inside the APB register space. */
  const CLIENT_CONFIG: nat := 0x0
  const RC_NORMAL_BASE: nat := 0x80_0000
  const LM_VENDOR_ID: nat := 0x90_0044
  const LM_RCBAR: nat := 0x90_0300
  const RC_CLASS_REVISION: nat := 0xa0_0008
  const RC_PCIE_LCAP: nat := 0xa0_00cc

  const LM_VENDOR_ROCKCHIP: bv32 := 0x1d87
  /** `PCI_CLASS_BRIDGE_PCI << 16`: class code of a PCI-to-PCI bridge. */
  const CLASS_BRIDGE_WORD: bv32 := 0x0604_0000
  /** `PCIE_LM_RCBARPIE | PCIE_LM_RCBARPIS`. */
  const RCBAR_ENABLES: bv32 := 0x18_0000
  const LCAP_APMS_L0S: bv32 := 0x400

  /** Client-config fields, each with its write-enable mask in the upper half. */
  const LINK_TRAIN_ENABLE: bv32 := 0x0002_0002
  const ARI_ENABLE: bv32 := 0x0008_0008
  const GEN_SEL_1: bv32 := 0x0080_0000

  /** Bits 21:20 of `PCIE_CLIENT_BASIC_STATUS1`; the link is up when both are set. */
  const LINK_STATUS_MASK: bv32 := 0x30_0000

  const PHY_COUNT: nat := 4

  /** `ENCODE_LANES(x)`: the two-bit lane-count field at bits 5:4. */
  function EncodeLanes(x: bv32): (f: bv32)
    ensures f & !0x30 == 0
    ensures x == 1 ==> f == 0x00
    ensures x == 2 ==> f == 0x10
    ensures x == 4 ==> f == 0x20
  {
    ((x >> 1) & 3) << 4
  }

  /**
   * The first client-config word: link training, ARI and the lane count, each
   * with its mask. The Gen1 select the driver computes first is overwritten
   * before the store, so neither the field nor its mask (bit 7, bit 23) is set.
   */
  function ClientConfigWord(lanes: bv32): (cr: bv32)
    ensures cr & (GEN_SEL_1 | 0x80) == 0
    ensures cr >> 16 == 0x3a
    ensures cr & 0xffff == 0x000a | EncodeLanes(lanes)
  {
    LINK_TRAIN_ENABLE | ARI_ENABLE | ((0x30 << 16) | EncodeLanes(lanes))
  }

  /**
   * The lane count after reading `num-lanes`: a value read successfully is
   * kept when it is 1, 2 or 4 and replaced by 1 otherwise; when the read
   * fails the previous value stays.
   */
  function NormalizeLanes(read: Option<bv32>, prior: bv32): (l: bv32)
    ensures read.Some? ==> l == 1 || l == 2 || l == 4
    ensures read.Some? && (read.value == 1 || read.value == 2 || read.value == 4) ==> l == read.value
    ensures read.None? ==> l == prior
  {
    match read
    case None => prior
    case Some(v) => if v == 0 || v == 3 || v > 4 then 1 else v
  }

  /** `(x & ~L0S)`: advertised L0s support withdrawn, every other capability bit kept. */
  function ClearL0s(lcap: bv32): (v: bv32)
    ensures v & LCAP_APMS_L0S == 0
    ensures v & !LCAP_APMS_L0S == lcap & !LCAP_APMS_L0S
  {
    lcap & !LCAP_APMS_L0S
  }

  /** Where a configuration access goes. */
  datatype Route = LocalRc | Downstream | NoDevice

  /** Device 0 on the root bus is the root port itself, device 0 on the next bus the device behind it. */
  function RouteOf(firstBusno: int, bdf: bv32): (r: Route)
    ensures r == LocalRc <==> Dev(bdf) == 0 && Bus(bdf) as int == firstBusno
    ensures r == Downstream <==> Dev(bdf) == 0 && Bus(bdf) as int == firstBusno + 1
  {
    if Bus(bdf) as int == firstBusno && Dev(bdf) == 0 then LocalRc
    else if Bus(bdf) as int == firstBusno + 1 && Dev(bdf) == 0 then Downstream
    else NoDevice
  }

  /** The register word a configuration access reads and writes, if the target is present. */
  function ConfigAddress(axi: nat, apb: nat, firstBusno: int, bdf: bv32, offset: bv32): (a: Option<nat>)
    ensures a.None? <==> RouteOf(firstBusno, bdf) == NoDevice
  {
    match RouteOf(firstBusno, bdf)
    case LocalRc => Some(apb + RC_NORMAL_BASE + EcamOffset(bdf, offset) as nat)
    case Downstream => Some(axi + EcamOffset(bdf, offset) as nat)
    case NoDevice => None
  }

  /** A configuration write followed by a read of the same lane returns the written value cut to the access width. */
  lemma ConfigWriteThenRead(m: map<nat, bv32>, a: nat, value: bv32, offset: bv32, size: PciSize)
    ensures ConvToSize(Reg(m[a := ConvFromSize(Reg(m, a), value, offset, size)], a), offset, size) == Truncate(value, size)
  {
    MergeThenExtract(Reg(m, a), value, offset, size);
  }

  datatype ResetLine = Aclk | Core | Mgmt | MgmtSticky | Pclk | Pipe | Pm
  datatype PhyOp = PhyInit | PhyPowerOn

  /** One observable action of the driver. */
  datatype Step =
    | SetEpGpio(high: bool)
    | AssertReset(line: ResetLine)
    | DeassertReset(line: ResetLine)
    | PhyCall(op: PhyOp, slot: nat)
    | WaitLinkUp(up: bool)
    | Mmio(w: RegWrite)

  /** The register stores among `steps`, in order. */
  function WritesIn(steps: seq<Step>): seq<RegWrite>
    decreases |steps|
  {
    if steps == [] then []
    else
      var front := WritesIn(steps[..|steps| - 1]);
      var s := steps[|steps| - 1];
      if s.Mmio? then front + [s.w] else front
  }

  lemma WritesInSnoc(a: seq<Step>, x: Step)
    ensures WritesIn(a + [x]) == if x.Mmio? then WritesIn(a) + [x.w] else WritesIn(a)
  {
    assert (a + [x])[..|a|] == a;
  }

  /** The register file after the stores among `steps`. */
  function RegsAfter(m: map<nat, bv32>, steps: seq<Step>): map<nat, bv32>
  {
    ApplyWrites(m, WritesIn(steps))
  }

  lemma {:induction false} WritesInAppend(a: seq<Step>, b: seq<Step>)
    ensures WritesIn(a + b) == WritesIn(a) + WritesIn(b)
    decreases |b|
  {
    if b == [] {
      assert a + b == a;
    } else {
      assert (a + b)[..|a + b| - 1] == a + b[..|b| - 1];
      WritesInAppend(a, b[..|b| - 1]);
    }
  }

  /** Running two step lists one after the other is running their concatenation. */
  lemma RegsAfterAppend(m: map<nat, bv32>, a: seq<Step>, b: seq<Step>)
    ensures RegsAfter(m, a + b) == RegsAfter(RegsAfter(m, a), b)
  {
    WritesInAppend(a, b);
    ApplyWritesAppend(m, WritesIn(a), WritesIn(b));
  }

  /** Steps that store nothing leave the register file alone. */
  lemma {:induction false} RegsAfterNoMmio(m: map<nat, bv32>, steps: seq<Step>)
    requires forall i :: 0 <= i < |steps| ==> !steps[i].Mmio?
    ensures WritesIn(steps) == []
    ensures RegsAfter(m, steps) == m
    decreases |steps|
  {
    if steps != [] {
      RegsAfterNoMmio(m, steps[..|steps| - 1]);
    }
  }

  /** A single store. */
  lemma RegsAfterStore(m: map<nat, bv32>, w: RegWrite)
    ensures RegsAfter(m, [Mmio(w)]) == m[w.addr := w.value]
  {
    WritesInSnoc([], Mmio(w));
    assert [] + [Mmio(w)] == [Mmio(w)];
    ApplyWritesSnoc(m, [], w);
    assert [] + [w] == [w];
  }

  /** A list of stores as steps. */
  function MmioSteps(ws: seq<RegWrite>): (steps: seq<Step>)
    ensures |steps| == |ws|
    ensures forall i :: 0 <= i < |ws| ==> steps[i] == Mmio(ws[i])
  {
    seq(|ws|, i requires 0 <= i < |ws| => Mmio(ws[i]))
  }

  lemma MmioStepsAppend(a: seq<RegWrite>, b: seq<RegWrite>)
    ensures MmioSteps(a + b) == MmioSteps(a) + MmioSteps(b)
  {
  }

  lemma {:induction false} WritesInMmio(ws: seq<RegWrite>)
    ensures WritesIn(MmioSteps(ws)) == ws
    decreases |ws|
  {
    if ws != [] {
      assert MmioSteps(ws)[..|ws| - 1] == MmioSteps(ws[..|ws| - 1]);
      WritesInMmio(ws[..|ws| - 1]);
    }
  }

  /** The reset lines held in reset after `steps`, starting from `s`. */
  function Held(s: set<ResetLine>, steps: seq<Step>): set<ResetLine>
    decreases |steps|
  {
    if steps == [] then s
    else
      var h := Held(s, steps[..|steps| - 1]);
      match steps[|steps| - 1]
      case AssertReset(l) => h + {l}
      case DeassertReset(l) => h - {l}
      case _ => h
  }

  lemma {:induction false} HeldAppend(s: set<ResetLine>, a: seq<Step>, b: seq<Step>)
    ensures Held(s, a + b) == Held(Held(s, a), b)
    decreases |b|
  {
    if b == [] {
      assert a + b == a;
    } else {
      assert (a + b)[..|a + b| - 1] == a + b[..|b| - 1];
      HeldAppend(s, a, b[..|b| - 1]);
    }
  }

  /** Steps that touch no reset line leave the held set alone. */
  lemma {:induction false} HeldNoResets(s: set<ResetLine>, steps: seq<Step>)
    requires forall i :: 0 <= i < |steps| ==> !steps[i].AssertReset? && !steps[i].DeassertReset?
    ensures Held(s, steps) == s
    decreases |steps|
  {
    if steps != [] {
      HeldNoResets(s, steps[..|steps| - 1]);
    }
  }

  /** Outcome of a sequence: a return code and the steps taken. */
  datatype Run = Run(ret: int, steps: seq<Step>)

  /**
   * One pass over the PHY slots from `i`: each valid PHY is called in slot
   * order, and the first non-zero result ends the pass and is returned.
   */
  function PhyPass(op: PhyOp, valid: seq<bool>, rets: seq<int>, i: nat): Run
    requires |valid| == |rets|
    decreases |valid| - i
  {
    if i >= |valid| then Run(0, [])
    else if !valid[i] then PhyPass(op, valid, rets, i + 1)
    else if rets[i] != 0 then Run(rets[i], [PhyCall(op, i)])
    else
      var rest := PhyPass(op, valid, rets, i + 1);
      Run(rest.ret, [PhyCall(op, i)] + rest.steps)
  }

  /**
   * A pass fails exactly when some valid PHY from `i` on fails, and it then
   * returns the error of the first such PHY; it calls only valid PHYs.
   */
  lemma {:induction false} PhyPassResult(op: PhyOp, valid: seq<bool>, rets: seq<int>, i: nat)
    requires |valid| == |rets|
    ensures PhyPass(op, valid, rets, i).ret != 0 <==> exists j :: i <= j < |valid| && valid[j] && rets[j] != 0
    ensures PhyPass(op, valid, rets, i).ret != 0 ==>
      exists j :: i <= j < |valid| && valid[j] && rets[j] == PhyPass(op, valid, rets, i).ret
        && forall k :: i <= k < j && valid[k] ==> rets[k] == 0
    ensures forall k :: 0 <= k < |PhyPass(op, valid, rets, i).steps| ==>
      var st := PhyPass(op, valid, rets, i).steps[k];
      st.PhyCall? && st.op == op && st.slot < |valid| && valid[st.slot]
    decreases |valid| - i
  {
    if i < |valid| {
      PhyPassResult(op, valid, rets, i + 1);
      var r := PhyPass(op, valid, rets, i);
      if valid[i] && rets[i] == 0 {
        var rest := PhyPass(op, valid, rets, i + 1);
        forall k | 0 <= k < |r.steps|
          ensures r.steps[k].PhyCall? && r.steps[k].op == op && r.steps[k].slot < |valid| && valid[r.steps[k].slot]
        {
          if k > 0 {
            assert r.steps[k] == rest.steps[k - 1];
          }
        }
      }
    }
  }

  /** The first steps of the bring-up: endpoint held in reset, bus clocks and power management in reset. */
  function Prologue(): seq<Step>
  {
    [SetEpGpio(false), AssertReset(Aclk), AssertReset(Pclk), AssertReset(Pm)]
  }

  /** Core, management and pipe go into reset while the bus clocks and power management come out. */
  function HoldCore(): seq<Step>
  {
    [AssertReset(Core), AssertReset(Mgmt), AssertReset(MgmtSticky), AssertReset(Pipe),
     DeassertReset(Aclk), DeassertReset(Pclk), DeassertReset(Pm)]
  }

  function ReleaseCore(): seq<Step>
  {
    [DeassertReset(Core), DeassertReset(Mgmt), DeassertReset(MgmtSticky), DeassertReset(Pipe)]
  }

  /** A reset step applied after `a`. */
  lemma HeldSnoc(s: set<ResetLine>, a: seq<Step>, x: Step)
    ensures x.AssertReset? ==> Held(s, a + [x]) == Held(s, a) + {x.line}
    ensures x.DeassertReset? ==> Held(s, a + [x]) == Held(s, a) - {x.line}
  {
    assert (a + [x])[..|a|] == a;
  }

  /** What each fixed group of reset steps does to the held set. */
  lemma PhaseHeld(s: set<ResetLine>)
    ensures Held(s, Prologue()) == s + {Aclk, Pclk, Pm}
    ensures Held(s, HoldCore()) == (s + {Core, Mgmt, MgmtSticky, Pipe}) - {Aclk, Pclk, Pm}
    ensures Held(s, ReleaseCore()) == s - {Core, Mgmt, MgmtSticky, Pipe}
  {
    assert Held(s, [SetEpGpio(false)]) == s by {
      assert [SetEpGpio(false)][..0] == [];
    }
    HeldSnoc(s, [SetEpGpio(false)], AssertReset(Aclk));
    HeldSnoc(s, [SetEpGpio(false), AssertReset(Aclk)], AssertReset(Pclk));
    HeldSnoc(s, [SetEpGpio(false), AssertReset(Aclk), AssertReset(Pclk)], AssertReset(Pm));
    assert Prologue() == [SetEpGpio(false), AssertReset(Aclk), AssertReset(Pclk)] + [AssertReset(Pm)];

    var h := HoldCore();
    HeldSnoc(s, [], h[0]);
    assert [] + [h[0]] == h[..1];
    HeldSnoc(s, h[..1], h[1]);
    assert h[..1] + [h[1]] == h[..2];
    HeldSnoc(s, h[..2], h[2]);
    assert h[..2] + [h[2]] == h[..3];
    HeldSnoc(s, h[..3], h[3]);
    assert h[..3] + [h[3]] == h[..4];
    HeldSnoc(s, h[..4], h[4]);
    assert h[..4] + [h[4]] == h[..5];
    HeldSnoc(s, h[..5], h[5]);
    assert h[..5] + [h[5]] == h[..6];
    HeldSnoc(s, h[..6], h[6]);
    assert h[..6] + [h[6]] == h;

    var r := ReleaseCore();
    HeldSnoc(s, [], r[0]);
    assert [] + [r[0]] == r[..1];
    HeldSnoc(s, r[..1], r[1]);
    assert r[..1] + [r[1]] == r[..2];
    HeldSnoc(s, r[..2], r[2]);
    assert r[..2] + [r[2]] == r[..3];
    HeldSnoc(s, r[..3], r[3]);
    assert r[..3] + [r[3]] == r;
  }

  /** Vendor id, bridge class code and RC BAR enables. */
  function RootComplexWrites(apb: nat): seq<RegWrite>
  {
    [RegWrite(apb + LM_VENDOR_ID, LM_VENDOR_ROCKCHIP),
     RegWrite(apb + RC_CLASS_REVISION, CLASS_BRIDGE_WORD),
     RegWrite(apb + LM_RCBAR, RCBAR_ENABLES)]
  }

  function L0sWrites(apb: nat, aspmNoL0s: bool, lcap: bv32): seq<RegWrite>
  {
    if aspmNoL0s then [RegWrite(apb + RC_PCIE_LCAP, ClearL0s(lcap))] else []
  }

  /**
   * The bring-up as far as PHY power-on: resets and PHY init, the first
   * client-config word with the core held in reset, then PHY power-on.
   */
  function PowerUpRun(apb: nat, lanes: bv32, valid: seq<bool>, initRets: seq<int>, powerRets: seq<int>): Run
    requires |valid| == |initRets| == |powerRets|
  {
    var init := PhyPass(PhyInit, valid, initRets, 0);
    var s1 := Prologue() + init.steps;
    if init.ret != 0 then Run(init.ret, s1)
    else
      var s2 := s1 + HoldCore() + [Mmio(RegWrite(apb + CLIENT_CONFIG, ClientConfigWord(lanes)))];
      var power := PhyPass(PhyPowerOn, valid, powerRets, 0);
      Run(power.ret, s2 + power.steps)
  }

  /** Link training: the core released, Gen1 training enabled, the endpoint let out of reset, then the link-up poll. */
  function TrainSteps(apb: nat, linkUp: bool): seq<Step>
  {
    ReleaseCore() + [Mmio(RegWrite(apb + CLIENT_CONFIG, LINK_TRAIN_ENABLE)), SetEpGpio(true), WaitLinkUp(linkUp)]
  }

  /** Link training stores the training-enable word and nothing else. */
  lemma TrainStepsEffect(m: map<nat, bv32>, apb: nat, linkUp: bool)
    ensures RegsAfter(m, TrainSteps(apb, linkUp)) == m[apb + CLIENT_CONFIG := LINK_TRAIN_ENABLE]
  {
    var w := RegWrite(apb + CLIENT_CONFIG, LINK_TRAIN_ENABLE);
    var tail := [Mmio(w), SetEpGpio(true), WaitLinkUp(linkUp)];
    RegsAfterNoMmio(m, ReleaseCore());
    WritesInAppend(ReleaseCore(), tail);
    WritesInSnoc([], Mmio(w));
    WritesInSnoc([Mmio(w)], SetEpGpio(true));
    WritesInSnoc([Mmio(w), SetEpGpio(true)], WaitLinkUp(linkUp));
    assert [] + [Mmio(w)] == [Mmio(w)];
    assert [Mmio(w)] + [SetEpGpio(true)] == [Mmio(w), SetEpGpio(true)];
    assert [Mmio(w), SetEpGpio(true)] + [WaitLinkUp(linkUp)] == tail;
    ApplyWritesSnoc(m, [], w);
    assert [] + [w] == [w];
  }

  /** The stores once the link is up: root-complex identity, the L0s change if asked for, then address translation. */
  function RcWrites(axi: nat, apb: nat, aspmNoL0s: bool, lcap: bv32, regions: seq<Atr.Region>): seq<RegWrite>
  {
    RootComplexWrites(apb) + L0sWrites(apb, aspmNoL0s, lcap) + Atr.Program(axi, apb, regions).1
  }

  /**
   * The bring-up once every PHY is powered: link training, then, if the link
   * came up, the root complex and translation set-up, with -ETIMEDOUT for a
   * link that stays down and -ENODEV for a rejected window.
   */
  function LinkRun(axi: nat, apb: nat, linkUp: bool, aspmNoL0s: bool, lcap: bv32, regions: seq<Atr.Region>): Run
  {
    if !linkUp then Run(-ETIMEDOUT, TrainSteps(apb, linkUp))
    else Run(if Atr.Program(axi, apb, regions).0 == 0 then 0 else -ENODEV,
             TrainSteps(apb, linkUp) + MmioSteps(RcWrites(axi, apb, aspmNoL0s, lcap, regions)))
  }

  /**
   * The complete bring-up of the port (`rockchip_pcie_init_port`), given the
   * PHY results, whether the link-up poll succeeded, whether the device tree
   * asks for no L0s, the link-capability word it would read and the host
   * bridge windows.
   */
  function PortRun(axi: nat, apb: nat, lanes: bv32, valid: seq<bool>, initRets: seq<int>, powerRets: seq<int>,
                   linkUp: bool, aspmNoL0s: bool, lcap: bv32, regions: seq<Atr.Region>): Run
    requires |valid| == |initRets| == |powerRets|
  {
    var up := PowerUpRun(apb, lanes, valid, initRets, powerRets);
    if up.ret != 0 then up
    else
      var link := LinkRun(axi, apb, linkUp, aspmNoL0s, lcap, regions);
      Run(link.ret, up.steps + link.steps)
  }

  /**
   * The bring-up succeeds exactly when every valid PHY initialises and powers
   * on, the link comes up and every mapped window is accepted. Otherwise the
   * first failing phase decides the result: the first failing valid PHY's init
   * error, else its power-on error (`PhyPassResult` says which PHY that is),
   * else -ETIMEDOUT for a link that does not come up, else -ENODEV for a
   * rejected window.
   */
  lemma PortRunResult(axi: nat, apb: nat, lanes: bv32, valid: seq<bool>, initRets: seq<int>, powerRets: seq<int>,
                      linkUp: bool, aspmNoL0s: bool, lcap: bv32, regions: seq<Atr.Region>)
    requires |valid| == |initRets| == |powerRets|
    ensures var run := PortRun(axi, apb, lanes, valid, initRets, powerRets, linkUp, aspmNoL0s, lcap, regions);
      && (run.ret == 0 <==>
            && (forall j :: 0 <= j < |valid| && valid[j] ==> initRets[j] == 0 && powerRets[j] == 0)
            && linkUp
            && (forall i :: 0 <= i < |regions| && Atr.Mapped(regions[i]) ==> Atr.Accepted(axi, apb, regions[i])))
      && var init := PhyPass(PhyInit, valid, initRets, 0);
      && var power := PhyPass(PhyPowerOn, valid, powerRets, 0);
      && (init.ret != 0 ==> run.ret == init.ret)
      && (init.ret == 0 && power.ret != 0 ==> run.ret == power.ret)
      && (init.ret == 0 && power.ret == 0 && !linkUp ==> run.ret == -ETIMEDOUT)
      && (init.ret == 0 && power.ret == 0 && linkUp &&
          (exists i :: 0 <= i < |regions| && Atr.Mapped(regions[i]) && !Atr.Accepted(axi, apb, regions[i]))
          ==> run.ret == -ENODEV)
  {
    PhyPassResult(PhyInit, valid, initRets, 0);
    PhyPassResult(PhyPowerOn, valid, powerRets, 0);
    Atr.CompileFailsIff(axi, apb, regions);
  }

  /** Steps that touch no reset line, appended after `a`, leave the held set as `a` left it. */
  lemma HeldThrough(s: set<ResetLine>, a: seq<Step>, b: seq<Step>)
    requires forall i :: 0 <= i < |b| ==> !b[i].AssertReset? && !b[i].DeassertReset?
    ensures Held(s, a + b) == Held(s, a)
  {
    HeldAppend(s, a, b);
    HeldNoResets(Held(s, a), b);
  }

  /**
   * The reset lines after the power-up part: a PHY init failure leaves the
   * bus clocks and power management in reset; otherwise those are released
   * and the core, management and pipe are in reset.
   */
  lemma PowerUpResetState(s: set<ResetLine>, apb: nat, lanes: bv32, valid: seq<bool>, initRets: seq<int>,
                          powerRets: seq<int>)
    requires |valid| == |initRets| == |powerRets|
    ensures var up := PowerUpRun(apb, lanes, valid, initRets, powerRets);
      && (PhyPass(PhyInit, valid, initRets, 0).ret != 0 ==> Held(s, up.steps) == s + {Aclk, Pclk, Pm})
      && (PhyPass(PhyInit, valid, initRets, 0).ret == 0 ==>
            Held(s, up.steps) == (s - {Aclk, Pclk, Pm}) + {Core, Mgmt, MgmtSticky, Pipe})
  {
    var init := PhyPass(PhyInit, valid, initRets, 0);
    var power := PhyPass(PhyPowerOn, valid, powerRets, 0);
    PhyPassResult(PhyInit, valid, initRets, 0);
    PhyPassResult(PhyPowerOn, valid, powerRets, 0);
    var h1 := s + {Aclk, Pclk, Pm};
    var h2 := (s - {Aclk, Pclk, Pm}) + {Core, Mgmt, MgmtSticky, Pipe};
    PhaseHeld(s);
    PhaseHeld(h1);

    var s1 := Prologue() + init.steps;
    HeldThrough(s, Prologue(), init.steps);
    assert Held(s, s1) == h1;
    if init.ret == 0 {
      var cfg := [Mmio(RegWrite(apb + CLIENT_CONFIG, ClientConfigWord(lanes)))];
      HeldAppend(s, s1, HoldCore());
      var s2 := s1 + HoldCore() + cfg;
      HeldThrough(s, s1 + HoldCore(), cfg);
      assert Held(s, s2) == h2;
      HeldThrough(s, s2, power.steps);
    }
  }

  /**
   * The reset lines after the bring-up: a PHY init failure leaves the bus
   * clocks and power management in reset; a PHY power-on failure leaves the
   * core, management and pipe in reset; once every PHY is powered all seven
   * lines are released, whatever the link and the ATR do.
   */
  lemma PortRunResetState(s: set<ResetLine>, axi: nat, apb: nat, lanes: bv32, valid: seq<bool>, initRets: seq<int>,
                          powerRets: seq<int>, linkUp: bool, aspmNoL0s: bool, lcap: bv32, regions: seq<Atr.Region>)
    requires |valid| == |initRets| == |powerRets|
    ensures var run := PortRun(axi, apb, lanes, valid, initRets, powerRets, linkUp, aspmNoL0s, lcap, regions);
      var init := PhyPass(PhyInit, valid, initRets, 0);
      var power := PhyPass(PhyPowerOn, valid, powerRets, 0);
      && (init.ret != 0 ==> Held(s, run.steps) == s + {Aclk, Pclk, Pm})
      && (init.ret == 0 && power.ret != 0 ==> Held(s, run.steps) == (s - {Aclk, Pclk, Pm}) + {Core, Mgmt, MgmtSticky, Pipe})
      && (init.ret == 0 && power.ret == 0 ==> Held(s, run.steps) == s - {Aclk, Core, Mgmt, MgmtSticky, Pclk, Pipe, Pm})
  {
    var up := PowerUpRun(apb, lanes, valid, initRets, powerRets);
    PowerUpResetState(s, apb, lanes, valid, initRets, powerRets);
    PhyPassResult(PhyInit, valid, initRets, 0);
    if up.ret == 0 {
      var h2 := (s - {Aclk, Pclk, Pm}) + {Core, Mgmt, MgmtSticky, Pipe};
      var h3 := s - {Aclk, Core, Mgmt, MgmtSticky, Pclk, Pipe, Pm};
      PhaseHeld(h2);
      assert h2 - {Core, Mgmt, MgmtSticky, Pipe} == h3;
      var tail := [Mmio(RegWrite(apb + CLIENT_CONFIG, LINK_TRAIN_ENABLE)), SetEpGpio(true), WaitLinkUp(linkUp)];
      var train := TrainSteps(apb, linkUp);
      HeldThrough(h2, ReleaseCore(), tail);
      assert Held(h2, train) == h3;
      if linkUp {
        HeldThrough(h2, train, MmioSteps(RcWrites(axi, apb, aspmNoL0s, lcap, regions)));
      }
      HeldAppend(s, up.steps, LinkRun(axi, apb, linkUp, aspmNoL0s, lcap, regions).steps);
    }
  }

  /** No core, management or pipe reset is released unless every valid PHY has powered on. */
  lemma PortRunReleasesOnlyAfterPowerOn(axi: nat, apb: nat, lanes: bv32, valid: seq<bool>, initRets: seq<int>,
                                        powerRets: seq<int>, linkUp: bool, aspmNoL0s: bool, lcap: bv32, regions: seq<Atr.Region>)
    requires |valid| == |initRets| == |powerRets|
    ensures var run := PortRun(axi, apb, lanes, valid, initRets, powerRets, linkUp, aspmNoL0s, lcap, regions);
      DeassertReset(Core) in run.steps ==> forall j :: 0 <= j < |valid| && valid[j] ==> initRets[j] == 0 && powerRets[j] == 0
  {
    var init := PhyPass(PhyInit, valid, initRets, 0);
    var power := PhyPass(PhyPowerOn, valid, powerRets, 0);
    PhyPassResult(PhyInit, valid, initRets, 0);
    PhyPassResult(PhyPowerOn, valid, powerRets, 0);
    if init.ret != 0 {
      assert DeassertReset(Core) !in Prologue() + init.steps;
    } else if power.ret != 0 {
      var s3 := Prologue() + init.steps + HoldCore() + [Mmio(RegWrite(apb + CLIENT_CONFIG, ClientConfigWord(lanes)))] + power.steps;
      assert DeassertReset(Core) !in s3;
    }
  }
}
