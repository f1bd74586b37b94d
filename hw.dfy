/**
 * Vocabulary shared by the drivers: error numbers, 32-bit register writes,
 * a register file seen as a map from address to word, and the bounded
 * status poll that `readl_poll_sleep_timeout` and `regmap_read_poll_timeout`
 * perform.
 */
module Hw {

  /** Error numbers; the drivers return their negation. */
  const ENODEV: int := 19
  const EINVAL: int := 22
  const ETIMEDOUT: int := 110

  /** An optional value. */
  datatype Option<T> = None | Some(value: T)

  /** One 32-bit store to a register address. */
  datatype RegWrite = RegWrite(addr: nat, value: bv32)

  /** The word held at `a`; a register never written reads as zero. */
  function Reg(m: map<nat, bv32>, a: nat): bv32
  {
    if a in m then m[a] else 0
  }

  /** Concatenation is associative; stated once so that proofs need not look inside the sequences. */
  lemma AppendAssoc<T>(a: seq<T>, b: seq<T>, c: seq<T>)
    ensures (a + b) + c == a + (b + c)
  {
  }

  /** Three single appends are one append of the three. */
  lemma SnocThree<T>(t: seq<T>, x: T, y: T, z: T)
    ensures t + [x] + [y] + [z] == t + [x, y, z]
  {
  }

  /** Plain stores applied in order (the last store to an address wins). */
  function ApplyWrites(m: map<nat, bv32>, ws: seq<RegWrite>): map<nat, bv32>
    decreases |ws|
  {
    if ws == [] then m
    else
      var w := ws[|ws| - 1];
      ApplyWrites(m, ws[..|ws| - 1])[w.addr := w.value]
  }

  lemma ApplyWritesSnoc(m: map<nat, bv32>, ws: seq<RegWrite>, w: RegWrite)
    ensures ApplyWrites(m, ws + [w]) == ApplyWrites(m, ws)[w.addr := w.value]
  {
    assert (ws + [w])[..|ws|] == ws;
  }

  /** Applying two write lists one after the other is applying their concatenation. */
  lemma {:induction false} ApplyWritesAppend(m: map<nat, bv32>, a: seq<RegWrite>, b: seq<RegWrite>)
    ensures ApplyWrites(ApplyWrites(m, a), b) == ApplyWrites(m, a + b)
    decreases |b|
  {
    if b == [] {
      assert a + b == a;
    } else {
      var b' := b[..|b| - 1];
      var w := b[|b| - 1];
      assert b == b' + [w];
      ApplyWritesAppend(m, a, b');
      assert a + b == (a + b') + [w];
      ApplyWritesSnoc(m, a + b', w);
    }
  }

  /** A register that no write of `ws` addresses keeps its word. */
  lemma {:induction false} ApplyWritesUntouched(m: map<nat, bv32>, ws: seq<RegWrite>, a: nat)
    requires forall i :: 0 <= i < |ws| ==> ws[i].addr != a
    ensures Reg(ApplyWrites(m, ws), a) == Reg(m, a)
    decreases |ws|
  {
    if ws != [] {
      ApplyWritesUntouched(m, ws[..|ws| - 1], a);
    }
  }

  /** The poll condition `(status & mask) == want`. */
  predicate Meets(status: bv32, mask: bv32, want: bv32)
  {
    status & mask == want
  }

  /** Some read taken before the deadline satisfies the condition. */
  predicate PollSucceeds(samples: seq<bv32>, mask: bv32, want: bv32)
  {
    exists i :: 0 <= i < |samples| && Meets(samples[i], mask, want)
  }

  /**
   * Reads the status register until the condition holds or the reads that
   * fit before the deadline (`samples`, in order) are used up; returns 0 or
   * -ETIMEDOUT together with the number of reads taken.
   */
  method Poll(samples: seq<bv32>, mask: bv32, want: bv32) returns (ret: int, taken: nat)
    ensures taken <= |samples|
    ensures ret == 0 <==> PollSucceeds(samples, mask, want)
    ensures ret != 0 ==> ret == -ETIMEDOUT && taken == |samples|
    ensures ret == 0 ==> 0 < taken && Meets(samples[taken - 1], mask, want)
    ensures forall i :: 0 <= i < taken && (ret != 0 || i < taken - 1) ==> !Meets(samples[i], mask, want)
  {
    taken := 0;
    while taken < |samples|
      invariant taken <= |samples|
      invariant forall i :: 0 <= i < taken ==> !Meets(samples[i], mask, want)
    {
      var status := samples[taken];
      taken := taken + 1;
      if Meets(status, mask, want) {
        return 0, taken;
      }
    }
    ret := -ETIMEDOUT;
  }
}
