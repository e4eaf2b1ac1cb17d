/**
 * The device seen through the I2C bus: a file of 256 byte-wide registers and the
 * driver's two transfer primitives, `_write_reg` and `_read_reg`. Whether a
 * transfer reaches the device is a parameter (`ok`), standing in for the bus
 * exceptions the driver catches.
 */
module Bus {
  import opened Bytes

  /** Register addresses are one byte wide, so the device has 256 registers. */
  const REGISTER_COUNT: nat := 256

  /** The device's registers, indexed by register address. */
  type Regs = s: seq<byte> | |s| == REGISTER_COUNT witness seq(REGISTER_COUNT, _ => 0)

  /** The payload `_read_reg` returns when the read transfer fails. */
  const READ_FALLBACK: seq<byte> := [0, 0]

  /** A transfer the driver issues on the bus. */
  datatype Txn = Write(reg: byte, data: seq<byte>) | Read(reg: byte, len: nat)

  /** True when `r` is outside the `len` registers starting at `reg`. */
  predicate Outside(r: int, reg: nat, len: nat) {
    r < reg || reg + len <= r
  }

  /**
   * `_write_reg(reg, data)`: a successful transfer stores `data[i]` in register
   * `reg + i`; a failed one leaves the device as it was.
   */
  function WriteReg(regs: Regs, reg: byte, data: seq<byte>, ok: bool): (r: Regs)
    requires reg + |data| <= REGISTER_COUNT
    ensures ok ==> forall i :: 0 <= i < |data| ==> r[reg + i] == data[i]
    ensures ok ==> forall i :: 0 <= i < REGISTER_COUNT && Outside(i, reg, |data|) ==> r[i] == regs[i]
    ensures !ok ==> r == regs
  {
    if ok then regs[..reg] + data + regs[reg + |data|..] else regs
  }

  /**
   * `_read_reg(reg, len)`: a successful transfer yields the `len` registers from
   * `reg` on; a failed one yields the two-byte fallback whatever `len` was.
   */
  function ReadReg(regs: Regs, reg: byte, len: nat, ok: bool): (data: seq<byte>)
    requires reg + len <= REGISTER_COUNT
    ensures ok ==> |data| == len && forall i :: 0 <= i < len ==> data[i] == regs[reg + i]
    ensures !ok ==> data == [0, 0]
  {
    if ok then regs[reg..reg + len] else READ_FALLBACK
  }

  /** A successful write followed by a successful read of the same registers returns what was written. */
  lemma ReadAfterWrite(regs: Regs, reg: byte, data: seq<byte>)
    requires reg + |data| <= REGISTER_COUNT
    ensures ReadReg(WriteReg(regs, reg, data, true), reg, |data|, true) == data
  {
  }

  /** A write, successful or not, does not change what a read of other registers returns. */
  lemma ReadOtherAfterWrite(regs: Regs, wreg: byte, data: seq<byte>, wok: bool, rreg: byte, len: nat, rok: bool)
    requires wreg + |data| <= REGISTER_COUNT && rreg + len <= REGISTER_COUNT
    requires rreg + len <= wreg || wreg + |data| <= rreg
    ensures ReadReg(WriteReg(regs, wreg, data, wok), rreg, len, rok) == ReadReg(regs, rreg, len, rok)
  {
  }
}
