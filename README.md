# RK3399 PCIe, PCIe PHY, FU540 boot mode and MPC8xxx SPI — a Dafny model

This project models four U-Boot drivers and proves properties of the model.

- **Rockchip PCIe root complex** (`drivers/pci/pcie_rockchip-new.c`):
  - the configuration-space proxy (`read_config` / `write_config`);
  - the address-translation (ATR) table builder (`atr_init`);
  - the port bring-up sequence (`init_port`);
  - the device-tree step that sets the addresses and the lane count (`parse_dt`).
- **RK3399 PCIe PHY** (`drivers/phy/rockchip/phy-rockchip-pcie-new.c`):
  - the write-masked ("hiword") GRF registers;
  - the three-store test-register protocol (`phy_wr_cfg`);
  - `power_on` with its three status polls, and `power_off`, `init`, `exit`;
  - the lane set-up of `probe`.
- **SiFive FU540 board** (`drivers/board/fu540.c`): the boot-mode decode and `get_int`.
- **MPC8xxx SPI** (`drivers/spi/mpc8xxx_spi.c`): the prescale and character-length helpers, `spi_init`, and the block loop of `spi_xfer`.

## How the model is built

Drivers that change state in place are classes:

- `PcieController.Controller` holds `struct rockchip_pcie`.
- `PhyDevice.Phy` holds the offset table of `struct rockchip_pcie_phy`, the lane indices of the platform data (`struct rockchip_pcie_phy_plat`) that the probe fills, and the state of the one reference clock that all lanes share. Its lane operations read their lane from that platform data; the driver as written reads it elsewhere (see Findings).
- `Mpc8xxxSpi.Spi` holds the SPI registers and the caller's memory.

Each class keeps two things:

- **A register file**, a `map` from address to 32-bit word. The controller's is `regs`; the PHY's is `grf`.
- **A trace** of every store, reset-line change, GPIO change, PHY call, clock call and status poll, in order. The controller's is `trace`; the PHY's is `log`.

Every method is proved against a pure function of the same module:

- The method appends exactly that function's steps to the trace.
- Its new register file is the old one with those steps' stores applied.

The properties are then stated as lemmas about the pure functions:

- `RockchipPcie.PortRun` describes `init_port`.
- `Atr.Program` describes `atr_init`.
- `PciePhy.PowerOnRun` describes `power_on`.
- `Mpc8xxxSpi.BlocksFrom` describes the SPI block loop.
- `Atr.Compile` describes the window loop of `atr_init`. `Atr.CompileFailsIff`, `Atr.CompileStopsAtFailure` and `Atr.CompileOutbound` state its properties.
- `Fu540.GetInt` describes `fu540_board_get_int`. `Fu540.GetIntContract` states its properties.

Calls into other drivers have no visible code, so their results are parameters: reset, clock, GPIO, regulator, PHY-uclass and device-tree lookups. A status poll with a timeout is given the list of status reads that fit before its deadline; it succeeds if one of them meets its condition.

`pci_conv_32_to_size`, `pci_conv_size_to_32`, `pci_get_ff` and the `PCI_BUS`/`PCI_DEV`/`PCI_FUNC` macros are not part of this model's source. They get the usual byte-lane definitions in `PciConfig`:

- a byte lane at `offset & 3`;
- a halfword at `offset & 2`.

These definitions are assumptions about code the model cannot see.

A 1 MiB window at 0x22000000, with the AXI base at 0x20000000 and the APB base at 0x21000000, is rejected, because it ends past the APB base. No accepted window uses slot 0, which is always the configuration window (`Atr.FirstSlot`). `Atr.ProgramExample` shows an accepted layout.

## Model

| member | source | states |
|---|---|---|
| Hw.Poll | drivers/pci/pcie_rockchip-new.c:452-458 | A bounded status poll returns 0 exactly when some read before the deadline meets the condition, and then stops at the first such read. Otherwise it returns -ETIMEDOUT after taking every read. |
| PciConfig.BdfFieldsRoundTrip | drivers/pci/pcie_rockchip-new.c:176-177 | Bus (8 bits), device (5) and function (3) packed into a `pci_dev_t` unpack to the same three values. |
| PciConfig.EcamOffsetFields | drivers/pci/pcie_rockchip-new.c:176-177 | The composite offset is always a multiple of 4. For a register offset below 4 KiB, bus, device, function and the word offset can be read back from it. |
| PciConfig.EcamOffsetInjective | drivers/pci/pcie_rockchip-new.c:217-218 | Two accesses inside the 4 KiB space reach the same word only if they name the same bus, device, function and word. |
| PciConfig.ConvToSizeFits | drivers/pci/pcie_rockchip-new.c:180-188 | A 1-, 2- or 4-byte read has no bit set above its width. |
| PciConfig.MergeThenExtract | drivers/pci/pcie_rockchip-new.c:219-221 | Merging a value into the addressed lane(s) and reading the same lane(s) back yields the value cut to the access width. |
| PciConfig.MergeKeepsOtherLanes | drivers/pci/pcie_rockchip-new.c:219-221 | The merge changes only the addressed lane(s); every other bit of the word keeps its value. |
| PciConfig.ExtractThenMerge | drivers/pci/pcie_rockchip-new.c:219-221 | Writing back the lane(s) just read leaves the word unchanged. |
| RockchipPcie.EncodeLanes | drivers/pci/pcie_rockchip-new.c:28 | The lane field lies within bits 5:4, and it encodes 1, 2 and 4 lanes as 0, 1 and 2. |
| RockchipPcie.ClientConfigWord | drivers/pci/pcie_rockchip-new.c:423-427 | The first client-config word has neither the Gen1-select field nor its mask, because the first assignment is overwritten. Its write mask is 0x3a: train, ARI and the lane field. Its value half is train, ARI and the encoded lanes. |
| RockchipPcie.NormalizeLanes | drivers/pci/pcie_rockchip-new.c:501-508 | A `num-lanes` value that was read keeps 1, 2 or 4 and becomes 1 otherwise. A failed read leaves the previous lane count. |
| RockchipPcie.ClearL0s | drivers/pci/pcie_rockchip-new.c:467-471 | The `aspm-no-l0s` change clears bit 10 of the link capabilities and keeps every other bit. |
| RockchipPcie.RouteOf | drivers/pci/pcie_rockchip-new.c:180-189 | Device 0 on the first bus goes to the root complex's own window. Device 0 on the next bus goes to the downstream window. Anything else has no device. Both directions are stated. |
| RockchipPcie.ConfigAddress | drivers/pci/pcie_rockchip-new.c:176-189 | A configuration access has a target word exactly when the route has a device. |
| RockchipPcie.ConfigWriteThenRead | drivers/pci/pcie_rockchip-new.c:219-222 | After a configuration write, reading the same lane(s) returns the written value cut to the access width. |
| RockchipPcie.PhyPassResult | drivers/pci/pcie_rockchip-new.c:401-410 | A PHY loop fails exactly when some valid PHY fails, and it returns the first such PHY's error. It calls only valid PHYs. |
| RockchipPcie.PhaseHeld | drivers/pci/pcie_rockchip-new.c:394-444 | Which reset lines are held after each fixed group of reset steps: the initial asserts, the core hold with the bus clocks released, and the core release. |
| RockchipPcie.TrainStepsEffect | drivers/pci/pcie_rockchip-new.c:441-458 | Link training stores the Gen1 training-enable word to the client-config register and nothing else. |
| RockchipPcie.PortRunResult | drivers/pci/pcie_rockchip-new.c:388-480 | The bring-up returns 0 exactly when four things hold: every valid PHY initialises, every valid PHY powers on, the link comes up, and every mapped window is accepted. Otherwise the first failing phase decides the result. A PHY init failure returns the first failing valid PHY's error, and so does a power-on failure. A link that does not come up returns -ETIMEDOUT. A rejected window returns -ENODEV. |
| RockchipPcie.PowerUpResetState | drivers/pci/pcie_rockchip-new.c:394-439 | If PHY init fails, the bus clocks and power management are left in reset. Otherwise those are released and the core, management and pipe lines are held. |
| RockchipPcie.PortRunResetState | drivers/pci/pcie_rockchip-new.c:394-479 | The reset lines held at the end of the bring-up for each outcome. Once every PHY has powered on, all seven lines are released, whatever the link and the ATR do. |
| RockchipPcie.PortRunReleasesOnlyAfterPowerOn | drivers/pci/pcie_rockchip-new.c:429-444 | The core reset is released only if every valid PHY has initialised and powered on. |
| Atr.SlotWrites | drivers/pci/pcie_rockchip-new.c:77-80 | An outbound slot is programmed by four stores to consecutive words at `ATR_BASE + slot * 0x20`. |
| Atr.HeaderType | drivers/pci/pcie_rockchip-new.c:344-347 | A window gets the I/O header exactly when it is flagged `PCI_REGION_IO`, and the memory header otherwise. |
| Atr.FirstSlot | drivers/pci/pcie_rockchip-new.c:366-367 | A window's first data slot is at least 1, because slot 0 is the configuration window. |
| Atr.CompileFailsIff | drivers/pci/pcie_rockchip-new.c:340-379 | The window loop fails exactly when some mapped window is rejected. |
| Atr.CompileStopsAtFailure | drivers/pci/pcie_rockchip-new.c:349-364 | Once a window is rejected, later windows add no stores. The stores of earlier windows stay. |
| Atr.RunWritesShape | drivers/pci/pcie_rockchip-new.c:368-378 | A run of `count` slots is `4 * count` stores. Its k-th group of four programs slot `first + k` with 32 address bits and header `type | RID`. |
| Atr.CompileOutbound | drivers/pci/pcie_rockchip-new.c:340-379 | Every store of the window loop goes to an outbound slot. |
| Atr.ProgramInboundIffSuccess | drivers/pci/pcie_rockchip-new.c:333-385 | The table always starts with configuration slot 0 and returns 0 or -EINVAL. Inbound slot 2 is programmed exactly when it returns 0. |
| Atr.ProgramOnSuccess | drivers/pci/pcie_rockchip-new.c:333-385 | When every mapped window is accepted, the stores are the configuration slot, then the compiled runs, then the inbound slot. |
| Atr.AcceptedRunStaysInAperture | drivers/pci/pcie_rockchip-new.c:359-378 | For an accepted window, slot `FirstSlot + k` translates the MiB that holds the window's k-th MiB, and it ends at or below the APB base. |
| Atr.AcceptedAgreesWithoutWrap | drivers/pci/pcie_rockchip-new.c:363 | When `addr + size` does not wrap at 64 bits, the driver's checks and the model's checks agree. |
| Atr.AcceptedAsWrittenOverflows | drivers/pci/pcie_rockchip-new.c:363 | A concrete window whose 64-bit end wraps passes the driver's checks, although it runs far past the APB base. |
| Atr.ProgramExample | drivers/pci/pcie_rockchip-new.c:333-385 | A 2 MiB memory window right after the configuration window lands in slots 1 and 2, between slot 0 and the inbound slot. |
| PcieController.Controller.ReadConfig | drivers/pci/pcie_rockchip-new.c:169-193 | A read returns 0 and changes nothing. It yields the addressed lane(s) of the target word, or all ones of the access width for an absent device. |
| PcieController.Controller.WriteConfig | drivers/pci/pcie_rockchip-new.c:210-235 | A write returns 0. Nothing is stored for an absent device. Otherwise exactly one store goes to the target word: the old word with the value merged into the lane(s). Reading the lane(s) back then yields the value. |
| PcieController.Controller.WriteSlot | drivers/pci/pcie_rockchip-new.c:369-373 | The four slot stores, in the driver's order. |
| PcieController.Controller.WriteRun | drivers/pci/pcie_rockchip-new.c:368-378 | The inner loop issues `size / 1 MiB` slot programs at consecutive slots, starting at `first`. |
| PcieController.Controller.ProgramWindow | drivers/pci/pcie_rockchip-new.c:341-378 | A window is skipped if it is system memory. Otherwise it passes exactly when it is accepted, and then its run is stored. A rejected window stores nothing. |
| PcieController.Controller.ProgramWindows | drivers/pci/pcie_rockchip-new.c:340-379 | The window loop stores the compiled runs in order and stops at the first rejected window. |
| PcieController.Controller.AtrInit | drivers/pci/pcie_rockchip-new.c:325-386 | `atr_init` returns the result of `Atr.Program`, and stores exactly its store sequence. |
| PcieController.Controller.CallPhys | drivers/pci/pcie_rockchip-new.c:401-410 | A PHY loop calls the valid PHYs in slot order and stops at the first failure. It stores nothing. |
| PcieController.Controller.EnterReset | drivers/pci/pcie_rockchip-new.c:394-398 | The endpoint GPIO is driven low, then the aclk, pclk and pm resets are asserted, in that order. No register changes. |
| PcieController.Controller.HoldCoreResets | drivers/pci/pcie_rockchip-new.c:412-421 | The core, mgmt, mgmt-sticky and pipe resets are asserted, then aclk, pclk and pm are released, in that order. No register changes. |
| PcieController.Controller.ReleaseCoreResets | drivers/pci/pcie_rockchip-new.c:441-444 | The core, mgmt, mgmt-sticky and pipe resets are released, in that order. No register changes. |
| PcieController.Controller.InitRootComplex | drivers/pci/pcie_rockchip-new.c:460-471 | The vendor id, class code and RC BAR stores, then, if `aspm-no-l0s` is set, the link capabilities read at the start stored back with L0s cleared. These are the only stores. |
| PcieController.Controller.ConfigureRootComplex | drivers/pci/pcie_rockchip-new.c:460-477 | The root-complex stores, then `atr_init`. Its result is `Atr.Program`'s, and the stores are exactly the root-complex stores followed by `Atr.Program`'s. |
| PcieController.Controller.WriteRcIds | drivers/pci/pcie_rockchip-new.c:461-465 | The vendor id, the bridge class code and the RC BAR enables, in that order. |
| PcieController.Controller.DropL0s | drivers/pci/pcie_rockchip-new.c:467-471 | Read-modify-write of the link capabilities with L0s cleared. |
| PcieController.Controller.ConfigureLanes | drivers/pci/pcie_rockchip-new.c:412-427 | Core, management and pipe go into reset and the bus clocks come out. Then the client-config word is stored, and only that register changes. |
| PcieController.Controller.TrainLink | drivers/pci/pcie_rockchip-new.c:441-458 | The core is released, training enabled and the endpoint released, then the link is polled. The result is 0 exactly when a read shows bits 21:20 both set, and -ETIMEDOUT otherwise. Only the client-config register changes. |
| PcieController.Controller.PowerUp | drivers/pci/pcie_rockchip-new.c:394-439 | The bring-up as far as PHY power-on, as `PowerUpRun` says. Only the client-config register changes. |
| PcieController.Controller.BringUpLink | drivers/pci/pcie_rockchip-new.c:441-479 | Link training, then the root complex and the ATR if the link is up, as `LinkRun` says. An ATR failure becomes -ENODEV. |
| PcieController.Controller.InitPort | drivers/pci/pcie_rockchip-new.c:388-480 | `init_port` returns `PortRun`'s result, appends exactly `PortRun`'s steps, and leaves exactly the stores among them applied. |
| PcieController.Controller.ParseDt | drivers/pci/pcie_rockchip-new.c:482-579 | The result is 0 exactly when `axi-base` is non-zero and the GPIO, all seven resets and the PHY are found. Otherwise the first failure decides the result: a zero `axi-base` gives -ENODEV, then a GPIO failure gives its own error, then a failed reset lookup gives -ENODEV, then the PHY lookup's result is returned. `apb-base` is stored unchecked. On success the model marks `phys[0]` valid; on any failure it leaves `phyValid` unchanged. The lane count is normalised once the GPIO is found. |
| Grf.GrfWrite | drivers/phy/rockchip/phy-rockchip-pcie-new.c:22-27 | A GRF register never holds anything in its upper half. |
| Grf.GrfWriteRule | drivers/phy/rockchip/phy-rockchip-pcie-new.c:22-27 | A store changes bit x exactly when bit x + 16 of the stored word is set. |
| Grf.GrfWriteIdempotent | drivers/phy/rockchip/phy-rockchip-pcie-new.c:22-27 | Storing the same word twice has the effect of storing it once. |
| Grf.CfgWordEffect | drivers/phy/rockchip/phy-rockchip-pcie-new.c:80-86 | The configuration word sets bits 10:7 to the data and bits 6:1 to the address, and keeps the rest of the lower half. |
| Grf.StrobeEffect | drivers/phy/rockchip/phy-rockchip-pcie-new.c:88-96 | The strobe store sets bit 0 and keeps the rest. |
| Grf.DisableAfterEnable | drivers/phy/rockchip/phy-rockchip-pcie-new.c:35-36 | The "disable" strobe changes nothing after the enable strobe, since both store 1. |
| Grf.IdleEffect | drivers/phy/rockchip/phy-rockchip-pcie-new.c:117-121 | A lane's idle-off store sets or clears bit `3 + index` and keeps every other bit. |
| PciePhy.CfgEventsEffect | drivers/phy/rockchip/phy-rockchip-pcie-new.c:77-97 | After `phy_wr_cfg` the configuration register holds the data in bits 10:7, the address in bits 6:1 and bit 0 set, and keeps bits 15:11. No other register changes. |
| PciePhy.PowerOnResult | drivers/phy/rockchip/phy-rockchip-pcie-new.c:99-228 | Power-on succeeds exactly when the reset is asserted and all three polls see their condition. A failed assert returns its error. A poll timeout returns -ETIMEDOUT, which overwrites the -EINVAL preset. |
| PciePhy.PowerOnResetBrackets | drivers/phy/rockchip/phy-rockchip-pcie-new.c:106-110 | The reset assert is the first call. A failed assert makes no other call. On a timeout the reset assert is also the last call. Power-on never releases the reset. |
| PciePhy.PowerOnPollOrder | drivers/phy/rockchip/phy-rockchip-pcie-new.c:124-200 | The polls run in this order: PLL_LOCKED clear, PLL_OUTPUT set, PLL_LOCKED clear again. Power-on stops at the first poll that times out. |
| PciePhy.PowerOnRegisters | drivers/phy/rockchip/phy-rockchip-pcie-new.c:112-190 | After a successful power-on, the configuration register holds address 0x10, data 8 and bit 0 set, with bits 15:11 kept. The lane's idle-off bit is clear, and every other lane-off bit is kept. No other register changes. |
| PciePhy.PowerOffRegisters | drivers/phy/rockchip/phy-rockchip-pcie-new.c:230-249 | Power-off sets the lane's idle-off bit, keeps every other lane-off bit and changes no other register. |
| PciePhy.PowerOnThenOff | drivers/phy/rockchip/phy-rockchip-pcie-new.c:230-249 | Power-off after a successful power-on leaves the lane-off register as power-off alone would. |
| PciePhy.InitResult | drivers/phy/rockchip/phy-rockchip-pcie-new.c:251-274 | Init succeeds exactly when the clock enables and the reset asserts, and otherwise returns the first error. A failure after the clock was enabled ends by disabling it. Init stores nothing. |
| PciePhy.PhyNum | drivers/phy/rockchip/phy-rockchip-pcie-new.c:312 | A `#phy-cells` of 0 means one PHY; any other value means `PHY_MAX_LANE_NUM` (four). |
| PciePhy.LanesOutcomeSpec | drivers/phy/rockchip/phy-rockchip-pcie-new.c:315-331 | The lane loop gives lanes their index up to the first failed lookup. It returns 0 exactly when all lanes get their index. Otherwise it returns that lookup's error, the clock's before the reset's. |
| PciePhy.ProbeResult | drivers/phy/rockchip/phy-rockchip-pcie-new.c:293-336 | Probe succeeds exactly when the driver data and the regmap are found, the cell count is read, and every lane gets both handles. Missing driver data gives -EINVAL. |
| PciePhy.IndexedLanes | drivers/phy/rockchip/phy-rockchip-pcie-new.c:330 | After k lanes of the loop, lane i < k has index i and the other lanes keep their index. |
| PciePhy.ProbeLeavesOpsTableNull | drivers/phy/rockchip/phy-rockchip-pcie-new.c:102 | As written: a probe of a four-lane PHY whose lookups all succeed gives platform lane 2 index 2, yet `phy_plat`, the table the lane operations read, is still NULL. |
| PciePhy.ProbedLanePowerOff | drivers/phy/rockchip/phy-rockchip-pcie-new.c:230-249 | As intended, with the lane operations reading the platform data the probe fills: after a successful probe lane `id` has index `id`. Power-off then sets that lane's own idle-off bit and keeps every other bit of the lane-off register. |
| PhyDevice.Phy.WrCfg | drivers/phy/rockchip/phy-rockchip-pcie-new.c:77-97 | `phy_wr_cfg` makes its three stores to the configuration register, in order. |
| PhyDevice.Phy.PowerOn | drivers/phy/rockchip/phy-rockchip-pcie-new.c:99-228 | Power-on's result, calls and GRF are those of `PowerOnRun`, with each poll's outcome decided by its reads. |
| PhyDevice.Phy.PowerOff | drivers/phy/rockchip/phy-rockchip-pcie-new.c:230-249 | Power-off's result, calls and GRF are those of `PowerOffRun`. |
| PhyDevice.Phy.Init | drivers/phy/rockchip/phy-rockchip-pcie-new.c:251-274 | Init's result and calls are those of `InitRun`. The device's one reference clock, shared by every lane, ends up enabled exactly when init succeeds; if enabling it fails, it is left as it was. |
| PhyDevice.Phy.Exit | drivers/phy/rockchip/phy-rockchip-pcie-new.c:276-284 | Exit disables the device's one reference clock, shared by every lane, and returns 0. |
| PhyDevice.Phy.Probe | drivers/phy/rockchip/phy-rockchip-pcie-new.c:293-336 | Probe keeps the driver data and gives lane indices as `ProbeRun` says. It returns `ProbeRun`'s result. |
| Fu540.BootDeviceOf | drivers/board/fu540.c:21-43 | The boot device is SPI exactly when bits 3:0 of the mode-select word are 0x6. |
| Fu540.BootDeviceLowBitsOnly | drivers/board/fu540.c:15-28 | Only bits 3:0 of the register decide the boot device. |
| Fu540.BootDeviceDecode | drivers/board/fu540.c:24-39 | 0x6 decodes to SPI and 0xb to MMC1. Every unsupported mode falls back to MMC1. |
| Fu540.ModeForRoundTrip | drivers/board/fu540.c:13-34 | Each device's mode value is supported and decodes back to that device. |
| Fu540.SupportedModeIsModeFor | drivers/board/fu540.c:28-34 | A supported mode is exactly the mode value of the device it decodes to. |
| Fu540.GetIntContract | drivers/board/fu540.c:45-57 | `get_int` succeeds exactly for the SPL boot-device id, and then stores the decoded device. Any other id returns -EINVAL and stores nothing. |
| Mpc8xxxSpi.ToPrescaleMod | drivers/spi/mpc8xxx_spi.c:33-36 | The result lies within the prescale field 0xf0000 and holds `min(v, 15)`. |
| Mpc8xxxSpi.WithCharLenField | drivers/spi/mpc8xxx_spi.c:38-41 | A length that fits lands in bits 23:20, and every other mode bit is kept. |
| Mpc8xxxSpi.InitModeFields | drivers/spi/mpc8xxx_spi.c:77-79 | `spi_init` leaves mode = REV, MS and EN with prescale modulus 1 and length field 0. |
| Mpc8xxxSpi.NumBlocksCeil | drivers/spi/mpc8xxx_spi.c:102 | Without the wrap, the block count is the number of 32-bit words needed, rounded up. |
| Mpc8xxxSpi.NumBlocksWraps | drivers/spi/mpc8xxx_spi.c:102 | In 32-bit arithmetic, a length among the top 31 values gives no block at all. |
| Mpc8xxxSpi.XferLen | drivers/spi/mpc8xxx_spi.c:116 | A block moves `min(bitlen, 32)` bits, and at least one bit when any remain. |
| Mpc8xxxSpi.CharLen | drivers/spi/mpc8xxx_spi.c:123-128 | The character-length field is 3 for at most 4 bits, `bitlen - 1` for at most 16 bits, and 0 otherwise. It always fits in 4 bits. |
| Mpc8xxxSpi.TxThenRx | drivers/spi/mpc8xxx_spi.c:133-163 | Justifying a word for sending and back for receiving keeps its top `x` bits and clears the rest. |
| Mpc8xxxSpi.TxWordFull | drivers/spi/mpc8xxx_spi.c:133 | A full block sends the buffer word unchanged. |
| Mpc8xxxSpi.TxWordFits | drivers/spi/mpc8xxx_spi.c:133 | A block shorter than 32 bits sends nothing above its length. |
| Mpc8xxxSpi.WaitFromDin | drivers/spi/mpc8xxx_spi.c:152-179 | The wait moves `din` on only for full 32-bit blocks. Memory changes only from the old `din` to the new one. |
| Mpc8xxxSpi.BlockModeFields | drivers/spi/mpc8xxx_spi.c:119-130 | During a block the interface is enabled with the block's character length, and every other mode bit is kept. |
| Mpc8xxxSpi.BlocksFrom | drivers/spi/mpc8xxx_spi.c:114-186 | Each block sends exactly one word, and earlier words stay as they were. |
| Mpc8xxxSpi.BlocksFromSplit | drivers/spi/mpc8xxx_spi.c:114 | Running blocks j to n is running blocks j to k, then k to n, from where the first part left off. |
| Mpc8xxxSpi.BlocksFromPrefix | drivers/spi/mpc8xxx_spi.c:114-139 | Block k of a transfer starts with `bitlen - 32 k` bits at buffer word `dout + k`. Every block but the last starts with more than 32 bits; the last starts with 1 to 32. |
| Mpc8xxxSpi.BlocksFromWord | drivers/spi/mpc8xxx_spi.c:116-142 | Block k of a transfer sends the word at `dout + k`, as memory stood when that block began, shifted right by `32 - min(bitlen - 32 k, 32)`. |
| Mpc8xxxSpi.Spi.SetCharLen | drivers/spi/mpc8xxx_spi.c:38-41 | `set_char_len` changes only the mode register, and only as `WithCharLen`. |
| Mpc8xxxSpi.Spi.Init | drivers/spi/mpc8xxx_spi.c:69-86 | After `spi_init` the mode is `INIT_MODE`, all interrupts are masked and the command register is 0. |
| Mpc8xxxSpi.Spi.Wait | drivers/spi/mpc8xxx_spi.c:151-179 | The wait loop stores received words and moves `din` as `WaitFrom` says. |
| Mpc8xxxSpi.Spi.SetupMode | drivers/spi/mpc8xxx_spi.c:119-130 | The mode register becomes `BlockMode`: disabled, the character length for the bits left set, then enabled again (`BlockModeFields` gives its bits). Nothing else changes. |
| Mpc8xxxSpi.Spi.Block | drivers/spi/mpc8xxx_spi.c:115-185 | One block as `BlockStep`. |
| Mpc8xxxSpi.Spi.Blocks | drivers/spi/mpc8xxx_spi.c:102-186 | The loop runs `NumBlocks(bitlen)` blocks, as `BlocksFrom` says. |
| Mpc8xxxSpi.Spi.Xfer | drivers/spi/mpc8xxx_spi.c:97-192 | `spi_xfer` selects the slave only with BEGIN and deselects it only with END. It runs the blocks and returns 0 even after a timed-out wait. |

## Left out

- Probe bookkeeping is not modelled: `rockchip_pcie_probe` and `fu540_board_probe`, and `spi_setup_slave`, `spi_free_slave`, `spi_claim_bus` and `spi_release_bus`. They only store handles, allocate, or return constants.
- Code under `#if 0` is not modelled.
- Device-tree, GPIO, reset, clock, regulator, syscon and PHY-uclass calls become result parameters, because their code is not visible here.
- The regulator enables in `parse_dt` do not affect the result, so they are not modelled.
- Real time is not modelled: `udelay`, `mdelay`, the timer and the poll intervals. Each timed wait is the finite list of reads that fit before its deadline.
- Debug and error messages are not modelled.
- Register addresses are unbounded naturals. A 32- or 64-bit wrap of `apb_base + offset` or of `axi_base + off` is not modelled.
- The PHY handle is one bit per slot. Only `phys[0]` is looked up, as in the code.
- PhyDevice.Phy.Init: every lane's `refclk` and `phy_rst` handles name the same clock and the same reset line (drivers/phy/rockchip/phy-rockchip-pcie-new.c:318, 324), so `refclkOn` is one bit for the device. It records the last enable or disable call and not a reference count, so a failed init of one lane leaves the clock off for every lane.
- PhyDevice.Phy.Exit: the disable goes to the one shared clock, so `refclkOn` ends false for every lane. A provider that counts enables would keep the clock running while other lanes still hold it; that counting is not modelled.
- Hw.Poll: the driver's poll macros always take at least one read before they check the deadline, but the model allows an empty list of reads, which returns -ETIMEDOUT having read nothing.
- A GRF register's upper half is taken to read as zero.
- Atr.Accepted: checks `addr + size` without the driver's 64-bit wrap. That wrap is recorded under Findings.
- PcieController.Controller.AtrInit: requires every mapped window's size to be a whole number of MiB. With any other size the driver's unsigned countdown wraps and does not stop where intended.
- PcieController.Controller.WriteRun: the slot index is unbounded, like the driver's `int region`; its overflow is not modelled.
- PcieController.Controller.ParseDt: the seven reset lookups are seven results. Their short-circuit order is kept only in that the first failure decides the result.
- PciePhy.PowerOnRun: the -EINVAL preset before each poll is dead, because the poll's own result overwrites it. The model returns the poll's -ETIMEDOUT.
- PhyDevice.Phy: the lane operations read their lane from the platform data the probe fills, which is the intended reading. The as-written reading through the never-assigned `phy_plat` is a NULL dereference. Only `PciePhy.ProbeLeavesOpsTableNull` models it, because the model has no addresses for driver data.
- PhyDevice.Phy: `priv_auto_alloc_size` is the size of the offset table rather than of `struct rockchip_pcie_phy`. Memory layout and allocation are not modelled.
- PciePhy.PowerOnRun: a failing `regmap_read` inside `regmap_read_poll_timeout` makes the poll return that read's error; the model's polls see only status words, so they return 0 or -ETIMEDOUT.
- PciePhy.PowerOnRun: the result of the reset re-assert on a timeout is ignored, as in the code.
- Mpc8xxxSpi.Spi.Wait: the event register is write-one-to-clear and its reads are hardware samples. It holds no state here, so the clears at the start of a transfer and after each receive are not modelled as stores.
- Mpc8xxxSpi.Spi.Wait: the `do … while` always reads at least once, but the model allows an empty list of reads (a deadline that has already passed).
- Mpc8xxxSpi.Spi.Xfer: the buffers are words of a memory map addressed in 32-bit units; byte addressing of `dout` and `din` is not modelled.
- Mpc8xxxSpi.Spi.Xfer: the debug read of `*(uint *)din` and `*(uint *)dout` before the loop is not modelled.
- FU540: the `BOOT_DEVICE_*` and `BOARD_*` numbers live in headers that are not part of this model, so they are enumerations here.

## Findings

| source | as written | input that shows it | evidently intended | confidence | as-written member | corrected member |
|---|---|---|---|---|---|---|
| drivers/pci/pcie_rockchip-new.c:363 | `addr + size > apb_base` is a 64-bit sum, and it can wrap | axi 0xf8000000, apb 0xfd000000, a window at 0xfa000000 of size 0xffff_ffff_fff0_0000 passes every check | reject any window that does not end at or below the APB base | not executed; medium | Atr.AcceptedAsWrittenOverflows | Atr.AcceptedRunStaysInAperture |
| drivers/phy/rockchip/phy-rockchip-pcie-new.c:102 | `power_on`, `power_off`, `init` and `exit` read their lane through `priv->phy_plat[phy->id]`. Nothing assigns `phy_plat`; the probe fills the platform data instead (lines 295, 316, 330). | a successful probe of a four-lane PHY, then `power_on` of lane 2: the lane's reset, clock and index are read through NULL | the lane operations use the platform data the probe filled | not executed; high | PciePhy.ProbeLeavesOpsTableNull | PciePhy.ProbedLanePowerOff |
