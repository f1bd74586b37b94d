/**
 * The SiFive FU540 board driver: the boot device is decoded from the low
 * four bits of the mode-select register, and the board's integer query
 * answers only the SPL boot-device id.
 *
 * The register word is a parameter (the single `readl` of the driver).
 */
module Fu540 {
  import opened Hw

  const MODE_SELECT_QSPI: bv32 := 0x6
  const MODE_SELECT_SD: bv32 := 0xb
  /** `GENMASK(3, 0)`. */
  const MODE_SELECT_MASK: bv32 := 0xf

  /** The boot devices the board can report. */
  datatype BootDevice = BootMmc1 | BootSpi

  /** `fu540_get_boot_device`: QSPI mode boots from SPI; SD mode and every unsupported mode boot from MMC1. */
  function BootDeviceOf(reg: bv32): (dev: BootDevice)
    ensures dev == BootSpi <==> reg & MODE_SELECT_MASK == MODE_SELECT_QSPI
  {
    match reg & MODE_SELECT_MASK
    case 0x6 => BootSpi
    case 0xb => BootMmc1
    case _ => BootMmc1
  }

  /** Whether the mode is one the driver knows (anything else is reported as an error before falling back). */
  predicate ModeSupported(reg: bv32)
  {
    reg & MODE_SELECT_MASK == MODE_SELECT_QSPI || reg & MODE_SELECT_MASK == MODE_SELECT_SD
  }

  /** Only bits 3:0 of the register decide the boot device. */
  lemma BootDeviceLowBitsOnly(r1: bv32, r2: bv32)
    requires r1 & MODE_SELECT_MASK == r2 & MODE_SELECT_MASK
    ensures BootDeviceOf(r1) == BootDeviceOf(r2)
  {
  }

  /** The decode case by case: 0x6 gives SPI, 0xb gives MMC1, and an unsupported mode falls back to MMC1. */
  lemma BootDeviceDecode(reg: bv32)
    ensures reg & MODE_SELECT_MASK == MODE_SELECT_QSPI ==> BootDeviceOf(reg) == BootSpi
    ensures reg & MODE_SELECT_MASK == MODE_SELECT_SD ==> BootDeviceOf(reg) == BootMmc1
    ensures !ModeSupported(reg) ==> BootDeviceOf(reg) == BootMmc1
  {
  }

  /** The mode-select value that boots from `dev`. */
  function ModeFor(dev: BootDevice): (mode: bv32)
    ensures mode & MODE_SELECT_MASK == mode
  {
    match dev
    case BootSpi => MODE_SELECT_QSPI
    case BootMmc1 => MODE_SELECT_SD
  }

  /** Each device's own mode is supported and decodes back to it. */
  lemma ModeForRoundTrip(dev: BootDevice)
    ensures ModeSupported(ModeFor(dev))
    ensures BootDeviceOf(ModeFor(dev)) == dev
  {
  }

  /** A supported mode is exactly the mode of the device it decodes to. */
  lemma SupportedModeIsModeFor(reg: bv32)
    requires ModeSupported(reg)
    ensures reg & MODE_SELECT_MASK == ModeFor(BootDeviceOf(reg))
  {
  }

  /** The ids `get_int` may be asked for. */
  datatype BoardId = SplBootDevice | OtherId(n: int)

  /** The result of `get_int` and the value it stores through `val`, if any. */
  datatype GetIntResult = GetIntResult(ret: int, val: Option<BootDevice>)

  /** `fu540_board_get_int`. */
  function GetInt(reg: bv32, id: BoardId): GetIntResult
  {
    match id
    case SplBootDevice => GetIntResult(0, Some(BootDeviceOf(reg)))
    case OtherId(_) => GetIntResult(-EINVAL, None)
  }

  /**
   * `get_int` succeeds exactly for the SPL boot-device id and then stores the
   * decoded device; any other id returns -EINVAL and stores nothing.
   */
  lemma GetIntContract(reg: bv32, id: BoardId)
    ensures GetInt(reg, id).ret == 0 <==> id == SplBootDevice
    ensures id == SplBootDevice ==> GetInt(reg, id).val == Some(BootDeviceOf(reg))
    ensures id != SplBootDevice ==> GetInt(reg, id).ret == -EINVAL && GetInt(reg, id).val.None?
  {
  }
}
