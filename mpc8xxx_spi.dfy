/**
 * The MPC8xxx SPI controller driver: controller set-up and the transfer
 * loop that moves up to 32 bits per block through the transmit and
 * receive registers.
 *
 * The event register is write-one-to-clear and its reads are hardware
 * samples, so it holds no state here: each block's wait sees the event
 * words (each with the receive word it would read) taken before the
 * deadline. The caller's buffers are words of `mem`, addressed in 32-bit
 * units, so a `dout` and `din` that overlap behave as they do in memory.
 */
module Mpc8xxxSpi {
  import opened Hw

  /** Event bits. */
  const SPI_EV_NE: bv32 := 0x200
  const SPI_EV_NF: bv32 := 0x100

  /** Mode bits and fields. */
  const SPI_MODE_REV: bv32 := 0x400_0000
  const SPI_MODE_MS: bv32 := 0x200_0000
  const SPI_MODE_EN: bv32 := 0x100_0000
  const SPI_MODE_LEN_MASK: bv32 := 0xf0_0000
  const SPI_MODE_PM_MASK: bv32 := 0xf_0000

  /** `to_prescale_mod`: the prescale modulus, capped at 15, in bits 19:16. */
  function ToPrescaleMod(v: bv32): (r: bv32)
    ensures r & !SPI_MODE_PM_MASK == 0
    ensures r >> 16 == if v < 15 then v else 15
  {
    (if v < 15 then v else 15) << 16
  }

  /** The mode word after `set_char_len(val)`. */
  function WithCharLen(mode: bv32, v: bv32): bv32
  {
    (mode & !SPI_MODE_LEN_MASK) | (v << 20)
  }

  /** A character length that fits the field lands in bits 23:20; every other bit of the mode is kept. */
  lemma WithCharLenField(mode: bv32, v: bv32)
    requires v <= 0xf
    ensures (WithCharLen(mode, v) >> 20) & 0xf == v
    ensures WithCharLen(mode, v) & !SPI_MODE_LEN_MASK == mode & !SPI_MODE_LEN_MASK
  {
  }

  /** The mode word `spi_init` leaves: MSB first, master, enabled, prescale modulus 1, character length field 0. */
  const INIT_MODE: bv32 := 0x701_0000

  lemma InitModeFields()
    ensures INIT_MODE == ((SPI_MODE_REV | SPI_MODE_MS | SPI_MODE_EN) & !SPI_MODE_PM_MASK) | ToPrescaleMod(1)
    ensures INIT_MODE & SPI_MODE_EN != 0 && INIT_MODE & SPI_MODE_REV != 0 && INIT_MODE & SPI_MODE_MS != 0
    ensures (INIT_MODE & SPI_MODE_PM_MASK) >> 16 == 1
    ensures INIT_MODE & SPI_MODE_LEN_MASK == 0
  {
  }

  /** `DIV_ROUND_UP(bitlen, 32)` in 32-bit unsigned arithmetic: the sum wraps for the top 31 values. */
  function NumBlocks(bitlen: nat): nat
    requires bitlen < 0x1_0000_0000
  {
    ((bitlen + 31) % 0x1_0000_0000) / 32
  }

  /** Without the wrap the block count is the rounded-up number of 32-bit words. */
  lemma NumBlocksCeil(bitlen: nat)
    requires bitlen <= 0xffff_ffe0
    ensures NumBlocks(bitlen) * 32 >= bitlen
    ensures NumBlocks(bitlen) == 0 || (NumBlocks(bitlen) - 1) * 32 < bitlen
  {
  }

  /** The wrap: a length in the top 31 values gives no block at all. */
  lemma NumBlocksWraps(bitlen: nat)
    requires 0xffff_ffe0 < bitlen < 0x1_0000_0000
    ensures NumBlocks(bitlen) == 0
  {
  }

  /** Bits moved by a block (`xfer_bitlen`), from the length still to send. */
  function XferLen(rem: nat): (x: bv32)
    ensures x <= 32 && (rem > 0 ==> x > 0)
    ensures rem >= 32 ==> x == 32
    ensures rem < 32 ==> x == rem as bv32
  {
    if rem >= 32 then 32 else rem as bv32
  }

  /** The character-length field for a block: 3 for at most 4 bits, `rem - 1` up to 16 bits, else 0 (32 bits). */
  function CharLen(rem: nat): (c: bv32)
    ensures c <= 0xf
    ensures rem <= 4 ==> c == 3
    ensures 4 < rem <= 16 ==> c == (rem - 1) as bv32
    ensures rem > 16 ==> c == 0
  {
    if rem <= 4 then 3 else if rem <= 16 then (rem - 1) as bv32 else 0
  }

  /** The transmitted word: the top `x` bits of the buffer word, moved to the bottom. */
  function TxWord(w: bv32, x: bv32): bv32
    requires 0 < x <= 32
  {
    w >> (32 - x)
  }

  /** The stored receive word: the low `x` bits received, moved back to the top. */
  function RxWord(r: bv32, x: bv32): bv32
    requires 0 < x <= 32
  {
    r << (32 - x)
  }

  /** The word a loopback would store: the buffer word's top `x` bits, every lower bit clear. */
  lemma TxThenRx(w: bv32, x: bv32)
    requires 0 < x <= 32
    ensures RxWord(TxWord(w, x), x) == w & (0xffff_ffff << (32 - x))
  {
  }

  /** A full block sends the buffer word unchanged. */
  lemma TxWordFull(w: bv32)
    ensures TxWord(w, 32) == w
  {
  }

  /** A block shorter than 32 bits sends nothing above its length. */
  lemma TxWordFits(w: bv32, x: bv32)
    requires 0 < x < 32
    ensures TxWord(w, x) < 1 << x
  {
  }

  /** One read of the event register during a block's wait, with the receive word a read of `rx` would give. */
  datatype Sample = Sample(event: bv32, rx: bv32)

  /** The receive address and memory after a wait. */
  datatype WaitResult = WaitResult(din: nat, mem: map<nat, bv32>)

  /**
   * The wait from sample `i` on: a read without NE goes on; a read with NE
   * stores the received word at `din` (advancing `din` only for a full
   * 32-bit block) and stops if NF is also set.
   */
  function WaitFrom(din: nat, mem: map<nat, bv32>, x: bv32, samples: seq<Sample>, i: nat): WaitResult
    requires 0 < x <= 32 && i <= |samples|
    decreases |samples| - i
  {
    if i == |samples| then WaitResult(din, mem)
    else
      var s := samples[i];
      if s.event & SPI_EV_NE == 0 then WaitFrom(din, mem, x, samples, i + 1)
      else
        var mem' := mem[din := RxWord(s.rx, x)];
        var din' := if x == 32 then din + 1 else din;
        if s.event & SPI_EV_NF != 0 then WaitResult(din', mem')
        else WaitFrom(din', mem', x, samples, i + 1)
  }

  /** Every read with NE stores one word, and `din` advances once per store, and only for a full block. */
  lemma {:induction false} WaitFromDin(din: nat, mem: map<nat, bv32>, x: bv32, samples: seq<Sample>, i: nat)
    requires 0 < x <= 32 && i <= |samples|
    ensures var r := WaitFrom(din, mem, x, samples, i);
      && din <= r.din
      && (x < 32 ==> r.din == din)
      && (forall a: nat :: a < din ==> Reg(r.mem, a) == Reg(mem, a))
      && (forall a: nat :: a > r.din ==> Reg(r.mem, a) == Reg(mem, a))
    decreases |samples| - i
  {
    if i < |samples| {
      var s := samples[i];
      if s.event & SPI_EV_NE == 0 {
        WaitFromDin(din, mem, x, samples, i + 1);
      } else if s.event & SPI_EV_NF == 0 {
        WaitFromDin(if x == 32 then din + 1 else din, mem[din := RxWord(s.rx, x)], x, samples, i + 1);
      }
    }
  }

  /** The transfer state between blocks. */
  datatype Cursor = Cursor(bitlen: nat, dout: nat, din: nat, mem: map<nat, bv32>, mode: bv32, tx: seq<bv32>)

  /** The mode word during a block: disabled, character length set, enabled again. */
  function BlockMode(mode: bv32, rem: nat): bv32
  {
    WithCharLen(mode & !SPI_MODE_EN, CharLen(rem)) | SPI_MODE_EN
  }

  /** During a block the interface is enabled with the block's character length; the other mode bits are kept. */
  lemma BlockModeFields(mode: bv32, rem: nat)
    ensures (BlockMode(mode, rem) >> 20) & 0xf == CharLen(rem)
    ensures BlockMode(mode, rem) & SPI_MODE_EN == SPI_MODE_EN
    ensures BlockMode(mode, rem) & !(SPI_MODE_LEN_MASK | SPI_MODE_EN) == mode & !(SPI_MODE_LEN_MASK | SPI_MODE_EN)
  {
    BlockModeBits(mode, CharLen(rem));
  }

  lemma BlockModeBits(mode: bv32, c: bv32)
    requires c <= 0xf
    ensures ((WithCharLen(mode & !SPI_MODE_EN, c) | SPI_MODE_EN) >> 20) & 0xf == c
    ensures (WithCharLen(mode & !SPI_MODE_EN, c) | SPI_MODE_EN) & SPI_MODE_EN == SPI_MODE_EN
    ensures (WithCharLen(mode & !SPI_MODE_EN, c) | SPI_MODE_EN) & !(SPI_MODE_LEN_MASK | SPI_MODE_EN) ==
      mode & !(SPI_MODE_LEN_MASK | SPI_MODE_EN)
  {
  }

  /**
   * One block of `spi_xfer`: the mode set up, the buffer word at `dout`
   * justified and sent, `bitlen` and `dout` moved on only when more than 32
   * bits remain, then the wait.
   */
  function BlockStep(c: Cursor, samples: seq<Sample>): (r: Cursor)
    requires c.bitlen > 0
    ensures r.bitlen > 0
  {
    var x := XferLen(c.bitlen);
    var word := TxWord(Reg(c.mem, c.dout), x);
    var w := WaitFrom(c.din, c.mem, x, samples, 0);
    Cursor(if c.bitlen > 32 then c.bitlen - 32 else c.bitlen,
           if c.bitlen > 32 then c.dout + 1 else c.dout,
           w.din, w.mem, BlockMode(c.mode, c.bitlen), c.tx + [word])
  }

  /** Blocks `j` to `n - 1`, block `j` using `samples[j]`. */
  function BlocksFrom(c: Cursor, samples: seq<seq<Sample>>, j: nat, n: nat): (r: Cursor)
    requires j <= n <= |samples|
    requires c.bitlen > 0 || j == n
    ensures |r.tx| == |c.tx| + (n - j)
    ensures r.tx[..|c.tx|] == c.tx
    ensures c.bitlen > 0 ==> r.bitlen > 0
    decreases n - j
  {
    if j == n then c
    else
      var next := BlockStep(c, samples[j]);
      var r := BlocksFrom(next, samples, j + 1, n);
      assert r.tx[..|c.tx|] == r.tx[..|next.tx|][..|c.tx|];
      r
  }

  /** Running blocks `j` to `n - 1` is running `j` to `k - 1`, then `k` to `n - 1`. */
  lemma {:induction false} BlocksFromSplit(c: Cursor, samples: seq<seq<Sample>>, j: nat, k: nat, n: nat)
    requires j <= k <= n <= |samples|
    requires c.bitlen > 0 || j == n
    ensures BlocksFrom(c, samples, j, k).bitlen > 0 || k == n
    ensures BlocksFrom(c, samples, j, n) == BlocksFrom(BlocksFrom(c, samples, j, k), samples, k, n)
    decreases k - j
  {
    if j < k {
      BlocksFromSplit(BlockStep(c, samples[j]), samples, j + 1, k, n);
    }
  }

  /**
   * The cursor as block `k` of a transfer begins: every earlier block had
   * more than 32 bits left and moved `bitlen` down by 32 and `dout` on by one
   * word, so block `k` starts with `bitlen - 32 * k` bits at word `dout + k`.
   * Every block but the last has more than 32 bits; the last has 1 to 32.
   */
  lemma {:induction false} BlocksFromPrefix(c0: Cursor, samples: seq<seq<Sample>>, k: nat)
    requires c0.bitlen < 0x1_0000_0000 && k < NumBlocks(c0.bitlen) <= |samples|
    ensures var ck := BlocksFrom(c0, samples, 0, k);
      && ck.bitlen == c0.bitlen - 32 * k
      && ck.dout == c0.dout + k
      && (k + 1 < NumBlocks(c0.bitlen) ==> ck.bitlen > 32)
      && (k + 1 == NumBlocks(c0.bitlen) ==> 0 < ck.bitlen <= 32)
  {
    NumBlocksCeil(c0.bitlen);
    if k > 0 {
      BlocksFromPrefix(c0, samples, k - 1);
      BlocksFromSplit(c0, samples, 0, k - 1, k);
    }
  }

  /** The first word sent from a cursor is its own block's. */
  lemma BlocksFromHead(c: Cursor, samples: seq<seq<Sample>>, j: nat, n: nat)
    requires j < n <= |samples| && c.bitlen > 0
    ensures BlocksFrom(c, samples, j, n).tx[|c.tx|] == TxWord(Reg(c.mem, c.dout), XferLen(c.bitlen))
  {
    var next := BlockStep(c, samples[j]);
    var r := BlocksFrom(next, samples, j + 1, n);
    assert r.tx[|c.tx|] == r.tx[..|next.tx|][|c.tx|];
  }

  /** The word block `k` sends is taken from the cursor as that block begins. */
  lemma {:induction false} BlocksFromAt(c: Cursor, samples: seq<seq<Sample>>, j: nat, k: nat, n: nat)
    requires j <= k < n <= |samples| && c.bitlen > 0
    ensures var ck := BlocksFrom(c, samples, j, k);
      BlocksFrom(c, samples, j, n).tx[|c.tx| + (k - j)] == TxWord(Reg(ck.mem, ck.dout), XferLen(ck.bitlen))
    decreases k - j
  {
    if j == k {
      BlocksFromHead(c, samples, j, n);
    } else {
      BlocksFromAt(BlockStep(c, samples[j]), samples, j + 1, k, n);
    }
  }

  /**
   * Block `k` of a transfer sends the word at `dout + k`, as memory stood
   * when that block began, shifted down to the block's length.
   */
  lemma BlocksFromWord(c0: Cursor, samples: seq<seq<Sample>>, k: nat)
    requires c0.bitlen < 0x1_0000_0000 && k < NumBlocks(c0.bitlen) <= |samples|
    ensures var n := NumBlocks(c0.bitlen);
      BlocksFrom(c0, samples, 0, n).tx[|c0.tx| + k] ==
        TxWord(Reg(BlocksFrom(c0, samples, 0, k).mem, c0.dout + k), XferLen(c0.bitlen - 32 * k))
  {
    var ck := BlocksFrom(c0, samples, 0, k);
    assert ck.dout == c0.dout + k && ck.bitlen == c0.bitlen - 32 * k by {
      BlocksFromPrefix(c0, samples, k);
    }
    BlocksFromAt(c0, samples, 0, k, NumBlocks(c0.bitlen));
  }

  /** Chip-select calls of a transfer: activation only with BEGIN, deactivation only with END, in that order. */
  function CsCalls(begin: bool, end: bool): seq<bool>
  {
    (if begin then [true] else []) + (if end then [false] else [])
  }

  class Spi {
    var mode: bv32
    var mask: bv32
    var com: bv32
    /** Words stored to the transmit register, in order. */
    var tx: seq<bv32>
    /** The caller's memory, in 32-bit words. */
    var mem: map<nat, bv32>
    /** Whether the slave is selected, and the select (true) and deselect (false) calls made. */
    var csActive: bool
    var csLog: seq<bool>

    /** Controller registers as found, over memory `m`. */
    constructor (mode0: bv32, mask0: bv32, com0: bv32, m: map<nat, bv32>)
      ensures mode == mode0 && mask == mask0 && com == com0 && mem == m
      ensures tx == [] && !csActive && csLog == []
    {
      mode := mode0;
      mask := mask0;
      com := com0;
      mem := m;
      tx := [];
      csActive := false;
      csLog := [];
    }

    /** `set_char_len`: only the character-length field changes. */
    method SetCharLen(v: bv32)
      modifies this
      ensures mode == WithCharLen(old(mode), v)
      ensures mask == old(mask) && com == old(com) && tx == old(tx) && mem == old(mem)
      ensures csActive == old(csActive) && csLog == old(csLog)
    {
      mode := (mode & !SPI_MODE_LEN_MASK) | (v << 20);
    }

    /**
     * `spi_init`: mode MSB first, master and enabled with prescale modulus 1,
     * all events cleared, all interrupts masked, command register cleared.
     */
    method Init()
      modifies this
      ensures mode == INIT_MODE && mask == 0 && com == 0
      ensures tx == old(tx) && mem == old(mem) && csActive == old(csActive) && csLog == old(csLog)
    {
      mode := SPI_MODE_REV | SPI_MODE_MS | SPI_MODE_EN;
      mode := (mode & !SPI_MODE_PM_MASK) | ToPrescaleMod(1);
      mask := mask & !0xffff_ffff;
      com := 0;
      InitModeFields();
    }

    /** The wait after a block's transmit: the received words stored as `WaitFrom` says. */
    method Wait(din: nat, x: bv32, samples: seq<Sample>) returns (din': nat)
      requires 0 < x <= 32
      modifies this
      ensures var r := WaitFrom(din, old(mem), x, samples, 0);
        && din' == r.din && mem == r.mem
      ensures mode == old(mode) && mask == old(mask) && com == old(com) && tx == old(tx)
      ensures csActive == old(csActive) && csLog == old(csLog)
    {
      din' := din;
      var i := 0;
      while i < |samples|
        invariant i <= |samples|
        invariant WaitFrom(din', mem, x, samples, i) == WaitFrom(din, old(mem), x, samples, 0)
        invariant mode == old(mode) && mask == old(mask) && com == old(com) && tx == old(tx)
        invariant csActive == old(csActive) && csLog == old(csLog)
      {
        var s := samples[i];
        i := i + 1;
        if s.event & SPI_EV_NE == 0 {
          continue;
        }
        mem := mem[din' := RxWord(s.rx, x)];
        if x == 32 {
          din' := din' + 1;
        }
        if s.event & SPI_EV_NF != 0 {
          return;
        }
      }
    }

    /** A block's mode set-up: disable, set the character length for `bitlen` bits, enable. */
    method SetupMode(bitlen: nat)
      modifies this
      ensures mode == BlockMode(old(mode), bitlen)
      ensures mask == old(mask) && com == old(com) && tx == old(tx) && mem == old(mem)
      ensures csActive == old(csActive) && csLog == old(csLog)
    {
      mode := mode & !SPI_MODE_EN;
      SetCharLen(CharLen(bitlen));
      mode := mode | SPI_MODE_EN;
    }

    /** One block of the transfer, as `BlockStep`. */
    method Block(bitlen: nat, dout: nat, din: nat, samples: seq<Sample>) returns (bitlen': nat, dout': nat, din': nat)
      requires bitlen > 0
      modifies this
      ensures var c := BlockStep(Cursor(bitlen, dout, din, old(mem), old(mode), old(tx)), samples);
        && bitlen' == c.bitlen && dout' == c.dout && din' == c.din
        && mem == c.mem && mode == c.mode && tx == c.tx
      ensures mask == old(mask) && com == old(com) && csActive == old(csActive) && csLog == old(csLog)
    {
      var x := XferLen(bitlen);
      SetupMode(bitlen);
      var word := TxWord(Reg(mem, dout), x);
      bitlen', dout' := bitlen, dout;
      if bitlen > 32 {
        bitlen' := bitlen - 32;
        dout' := dout + 1;
      }
      tx := tx + [word];
      din' := Wait(din, x, samples);
    }

    /** The blocks of a transfer of `bitlen` bits: `NumBlocks(bitlen)` of them, as `BlocksFrom` says. */
    method Blocks(bitlen: nat, dout: nat, din: nat, samples: seq<seq<Sample>>)
      requires bitlen < 0x1_0000_0000
      requires |samples| >= NumBlocks(bitlen)
      modifies this
      ensures var r := BlocksFrom(Cursor(bitlen, dout, din, old(mem), old(mode), old(tx)), samples, 0, NumBlocks(bitlen));
        mem == r.mem && mode == r.mode && tx == r.tx
      ensures mask == old(mask) && com == old(com) && csActive == old(csActive) && csLog == old(csLog)
    {
      ghost var c0 := Cursor(bitlen, dout, din, mem, mode, tx);
      var n := NumBlocks(bitlen);
      var numBlks := n;
      var rem, dp, ip := bitlen, dout, din;
      if n > 0 {
        assert bitlen > 0;
      }
      while numBlks > 0
        invariant numBlks <= n
        invariant rem > 0 || numBlks == 0
        invariant n - numBlks <= n <= |samples|
        invariant BlocksFrom(Cursor(rem, dp, ip, mem, mode, tx), samples, n - numBlks, n) == BlocksFrom(c0, samples, 0, n)
        invariant mask == old(mask) && com == old(com)
        invariant csActive == old(csActive) && csLog == old(csLog)
      {
        ghost var c := Cursor(rem, dp, ip, mem, mode, tx);
        var j := n - numBlks;
        assert BlocksFrom(c, samples, j, n) == BlocksFrom(BlockStep(c, samples[j]), samples, j + 1, n);
        numBlks := numBlks - 1;
        rem, dp, ip := Block(rem, dp, ip, samples[j]);
      }
      assert BlocksFrom(Cursor(rem, dp, ip, mem, mode, tx), samples, n, n) == Cursor(rem, dp, ip, mem, mode, tx);
    }

    /**
     * `spi_xfer`: chip select per the flags, then `NumBlocks(bitlen)` blocks
     * as `BlocksFrom` says; it always returns 0, whether or not a wait timed
     * out.
     */
    method Xfer(bitlen: nat, dout: nat, din: nat, begin: bool, end: bool, samples: seq<seq<Sample>>) returns (ret: int)
      requires bitlen < 0x1_0000_0000
      requires |samples| >= NumBlocks(bitlen)
      modifies this
      ensures ret == 0
      ensures var r := BlocksFrom(Cursor(bitlen, dout, din, old(mem), old(mode), old(tx)), samples, 0, NumBlocks(bitlen));
        mem == r.mem && mode == r.mode && tx == r.tx
      ensures csLog == old(csLog) + CsCalls(begin, end)
      ensures csActive == if end then false else if begin then true else old(csActive)
      ensures mask == old(mask) && com == old(com)
    {
      if begin {
        csActive := true;
        csLog := csLog + [true];
      }
      Blocks(bitlen, dout, din, samples);
      if end {
        csActive := false;
        csLog := csLog + [false];
      }
      ret := 0;
    }
  }
}
