/**
 * The driver class `DFRobot_VisualRotaryEncoder`: each public method as a pure
 * function from the register file and the transport outcome of each transfer
 * to a `Step` that records the new register file, the transfers issued and the
 * method's return value.
 */
module RotaryEncoder {
  import opened Wrappers
  import opened Bytes
  import opened Bus

  const DEFAULT_I2C_ADDR: byte := 0x54
  const PID: nat := 0x01F6

  /** First register of the 8-byte identity block. */
  const PID_MSB_REG: byte := 0x00
  /** High byte of the encoder count; the low byte follows at 0x09. */
  const COUNT_MSB_REG: byte := 0x08
  const KEY_STATUS_REG: byte := 0x0A
  const GAIN_REG: byte := 0x0B

  const GAIN_MIN: int := 0x01
  const GAIN_MAX: int := 0x33
  const COUNT_MAX: int := 0x3FF

  /** What one driver call leaves behind. */
  datatype Step<T> = Step(regs: Regs, bus: seq<Txn>, value: T)

  /** The identity block, decoded; the source formats these four numbers into a string. */
  datatype DeviceInfo = DeviceInfo(pid: nat, vid: nat, version: nat, i2cAddr: byte)

  /** Python's `IndexError`: `data[index]` on a sequence of `length` elements. */
  datatype Error = IndexError(index: nat, length: nat)

  predicate ValidGain(gain: int) {
    GAIN_MIN <= gain <= GAIN_MAX
  }

  predicate ValidCount(value: int) {
    0 <= value <= COUNT_MAX
  }

  /** The encoder count as the two count registers hold it, high byte first. */
  function CountOf(regs: Regs): nat {
    regs[COUNT_MSB_REG] as int * 256 + regs[COUNT_MSB_REG + 1]
  }

  /** The identity block's fields as registers 0x00-0x07 hold them: three big-endian pairs, a reserved byte, the address. */
  function IdentityOf(regs: Regs): DeviceInfo {
    DeviceInfo(regs[0] as int * 256 + regs[1], regs[2] as int * 256 + regs[3], regs[4] as int * 256 + regs[5], regs[7])
  }

  /** Python's `data[i]` for a non-negative index. */
  function At(data: seq<byte>, i: nat): (r: Result<byte, Error>)
    ensures r.Success? <==> i < |data|
    ensures r.Success? ==> r.value == data[i]
    ensures r.Failure? ==> r.error == IndexError(i, |data|)
  {
    if i < |data| then Success(data[i]) else Failure(IndexError(i, |data|))
  }

  /**
   * `set_gain_coefficient`: a gain in [1, 51] is written as one byte to the gain
   * register; any other gain issues no transfer at all.
   */
  function SetGainCoefficient(regs: Regs, gain: int, ok: bool): (s: Step<()>)
    ensures ValidGain(gain) ==> s.bus == [Write(GAIN_REG, [gain as byte])]
    ensures !ValidGain(gain) ==> s.bus == [] && s.regs == regs
    ensures s.regs[GAIN_REG] == if ValidGain(gain) && ok then gain else regs[GAIN_REG]
    ensures forall i :: 0 <= i < REGISTER_COUNT && i != GAIN_REG ==> s.regs[i] == regs[i]
    ensures !ok ==> s.regs == regs
  {
    if GAIN_MIN <= gain <= GAIN_MAX then
      Step(WriteReg(regs, GAIN_REG, [gain], ok), [Write(GAIN_REG, [gain])], ())
    else
      Step(regs, [], ())
  }

  /**
   * `set_encoder_value`: a count in [0, 1023] is written high byte first to the
   * two count registers; any other count issues no transfer at all.
   */
  function SetEncoderValue(regs: Regs, value: int, ok: bool): (s: Step<()>)
    ensures ValidCount(value) ==> s.bus == [Write(COUNT_MSB_REG, [value / 256, value % 256])]
    ensures ValidCount(value) ==> s.bus[0].data[0] <= 3
    ensures !ValidCount(value) ==> s.bus == [] && s.regs == regs
    ensures ValidCount(value) && ok ==> CountOf(s.regs) == value
    ensures forall i :: 0 <= i < REGISTER_COUNT && i != COUNT_MSB_REG && i != COUNT_MSB_REG + 1 ==> s.regs[i] == regs[i]
    ensures !ok ==> s.regs == regs
  {
    if 0x0000 <= value <= COUNT_MAX then
      var buf := [HighByte(value), LowByte(value)];
      Step(WriteReg(regs, COUNT_MSB_REG, buf, ok), [Write(COUNT_MSB_REG, buf)], ())
    else
      Step(regs, [], ())
  }

  /** Unpacks the identity block as `get_device_info` does; byte 6 is never looked at. */
  function DecodeDeviceInfo(data: seq<byte>): (r: Result<DeviceInfo, Error>)
    ensures r.Success? <==> |data| >= 8
    ensures r.Success? ==> r.value == DeviceInfo(data[0] as int * 256 + data[1], data[2] as int * 256 + data[3], data[4] as int * 256 + data[5], data[7])
    ensures |data| == 2 ==> r == Failure(IndexError(2, 2))
  {
    var b0 :- At(data, 0);
    var b1 :- At(data, 1);
    var b2 :- At(data, 2);
    var b3 :- At(data, 3);
    var b4 :- At(data, 4);
    var b5 :- At(data, 5);
    var b7 :- At(data, 7);
    Success(DeviceInfo(Join(b0, b1), Join(b2, b3), Join(b4, b5), b7))
  }

  /**
   * `get_device_info`: one 8-byte read of the identity block. When the read
   * fails the two-byte fallback is too short and indexing it raises.
   */
  function GetDeviceInfo(regs: Regs, ok: bool): (s: Step<Result<DeviceInfo, Error>>)
    ensures s.regs == regs && s.bus == [Read(PID_MSB_REG, 8)]
    ensures s.value == if ok then Success(IdentityOf(regs)) else Failure(IndexError(2, 2))
  {
    var data := ReadReg(regs, PID_MSB_REG, 8, ok);
    DecodeIdentityBlock(regs);
    assert ok ==> data == regs[..8];
    Step(regs, [Read(PID_MSB_REG, 8)], DecodeDeviceInfo(data))
  }

  /** Decoding the first eight registers yields the identity block they hold. */
  lemma DecodeIdentityBlock(regs: Regs)
    ensures DecodeDeviceInfo(regs[..8]) == Success(IdentityOf(regs))
  {
  }

  /** `get_encoder_value`: one 2-byte read of the count registers, decoded big-endian; 0 when the read fails. */
  function GetEncoderValue(regs: Regs, ok: bool): (s: Step<nat>)
    ensures s.regs == regs && s.bus == [Read(COUNT_MSB_REG, 2)]
    ensures s.value == if ok then CountOf(regs) else 0
    ensures s.value < 0x1_0000
  {
    var data := ReadReg(regs, COUNT_MSB_REG, 2, ok);
    Step(regs, [Read(COUNT_MSB_REG, 2)], Join(data[0], data[1]))
  }

  /** `get_gain_coefficient`: one 1-byte read of the gain register; 0 when the read fails. */
  function GetGainCoefficient(regs: Regs, ok: bool): (s: Step<byte>)
    ensures s.regs == regs && s.bus == [Read(GAIN_REG, 1)]
    ensures s.value == if ok then regs[GAIN_REG] else 0
  {
    var data := ReadReg(regs, GAIN_REG, 1, ok);
    Step(regs, [Read(GAIN_REG, 1)], data[0])
  }

  /**
   * `detect_button_down`: reads the key status register and, when it holds 1,
   * writes 0 back to clear the latched press. `readOk` and `writeOk` are the
   * outcomes of those two transfers.
   */
  function DetectButtonDown(regs: Regs, readOk: bool, writeOk: bool): (s: Step<bool>)
    ensures s.value <==> readOk && regs[KEY_STATUS_REG] == 1
    ensures s.value ==> s.bus == [Read(KEY_STATUS_REG, 1), Write(KEY_STATUS_REG, [0])]
    ensures s.value ==> s.regs == if writeOk then regs[KEY_STATUS_REG := 0] else regs
    ensures !s.value ==> s.bus == [Read(KEY_STATUS_REG, 1)] && s.regs == regs
  {
    var data := ReadReg(regs, KEY_STATUS_REG, 1, readOk);
    if 1 == data[0] then
      Step(WriteReg(regs, KEY_STATUS_REG, [0], writeOk), [Read(KEY_STATUS_REG, 1), Write(KEY_STATUS_REG, [0])], true)
    else
      Step(regs, [Read(KEY_STATUS_REG, 1)], false)
  }

  /** The identity block a device with this information presents; `reserved` fills byte 6. */
  function EncodeDeviceInfo(info: DeviceInfo, reserved: byte): (data: seq<byte>)
    requires info.pid < 0x1_0000 && info.vid < 0x1_0000 && info.version < 0x1_0000
    ensures |data| == 8 && data[6] == reserved && data[7] == info.i2cAddr
    ensures data[0] as int * 256 + data[1] == info.pid
    ensures data[2] as int * 256 + data[3] == info.vid
    ensures data[4] as int * 256 + data[5] == info.version
  {
    [HighByte(info.pid), LowByte(info.pid), HighByte(info.vid), LowByte(info.vid),
     HighByte(info.version), LowByte(info.version), reserved, info.i2cAddr]
  }

  /** Decoding an encoded identity block recovers the information, whatever the reserved byte holds. */
  lemma DecodeEncodeDeviceInfo(info: DeviceInfo, reserved: byte)
    requires info.pid < 0x1_0000 && info.vid < 0x1_0000 && info.version < 0x1_0000
    ensures DecodeDeviceInfo(EncodeDeviceInfo(info, reserved)) == Success(info)
  {
    JoinSplit(info.pid);
    JoinSplit(info.vid);
    JoinSplit(info.version);
  }

  /** An identity block holding the driver's PID constant, VID 1, version 2 and the default address decodes to those values. */
  lemma DeviceInfoFixture(regs: Regs)
    requires regs[..8] == [0x01, 0xF6, 0x00, 0x01, 0x00, 0x02, 0x00, 0x54]
    ensures GetDeviceInfo(regs, true).value == Success(DeviceInfo(PID, 0x0001, 0x0002, DEFAULT_I2C_ADDR))
  {
    assert regs[0] == 0x01 && regs[1] == 0xF6 && regs[7] == 0x54;
  }

  /** Byte 6 of the identity block never affects what `get_device_info` reports. */
  lemma ReservedByteIgnored(regs: Regs, b: byte, ok: bool)
    ensures GetDeviceInfo(regs[6 := b], ok).value == GetDeviceInfo(regs, ok).value
  {
  }

  /** A gain in range, written and read back over a working bus, is the gain read. */
  lemma GainRoundTrip(regs: Regs, gain: int)
    requires ValidGain(gain)
    ensures GetGainCoefficient(SetGainCoefficient(regs, gain, true).regs, true).value == gain
  {
  }

  /** A rejected or failed gain write leaves the gain that is read back as it was. */
  lemma GainUnchangedUnlessWritten(regs: Regs, gain: int, writeOk: bool, readOk: bool)
    requires !ValidGain(gain) || !writeOk
    ensures GetGainCoefficient(SetGainCoefficient(regs, gain, writeOk).regs, readOk).value
         == GetGainCoefficient(regs, readOk).value
  {
  }

  /** A count in range, written and read back over a working bus, is the count read. */
  lemma EncoderRoundTrip(regs: Regs, value: int)
    requires ValidCount(value)
    ensures GetEncoderValue(SetEncoderValue(regs, value, true).regs, true).value == value
  {
  }

  /** A rejected or failed count write leaves the count that is read back as it was. */
  lemma EncoderUnchangedUnlessWritten(regs: Regs, value: int, writeOk: bool, readOk: bool)
    requires !ValidCount(value) || !writeOk
    ensures GetEncoderValue(SetEncoderValue(regs, value, writeOk).regs, readOk).value
         == GetEncoderValue(regs, readOk).value
  {
  }

  /** Setting the gain and setting the count touch disjoint registers: each leaves the other's reading alone. */
  lemma SettersIndependent(regs: Regs, gain: int, value: int, writeOk: bool, readOk: bool)
    ensures GetEncoderValue(SetGainCoefficient(regs, gain, writeOk).regs, readOk).value
         == GetEncoderValue(regs, readOk).value
    ensures GetGainCoefficient(SetEncoderValue(regs, value, writeOk).regs, readOk).value
         == GetGainCoefficient(regs, readOk).value
  {
  }

  /** A latched press is reported once: when the clearing write succeeds, the next call reports no press. */
  lemma ButtonPressReportedOnce(regs: Regs, readOk: bool, writeOk: bool)
    requires regs[KEY_STATUS_REG] == 1
    ensures DetectButtonDown(regs, true, true).value
    ensures !DetectButtonDown(DetectButtonDown(regs, true, true).regs, readOk, writeOk).value
  {
  }

  /** When the clearing write fails, the press stays latched and the next successful read reports it again. */
  lemma ButtonPressKeptOnFailedClear(regs: Regs, writeOk: bool)
    requires regs[KEY_STATUS_REG] == 1
    ensures DetectButtonDown(DetectButtonDown(regs, true, false).regs, true, writeOk).value
  {
  }

  /** A failed read never raises in the count, gain and button getters: they report 0, 0 and no press. */
  lemma ReadFailureFallbacks(regs: Regs, writeOk: bool)
    ensures GetEncoderValue(regs, false).value == 0
    ensures GetGainCoefficient(regs, false).value == 0
    ensures !DetectButtonDown(regs, false, writeOk).value
    ensures GetDeviceInfo(regs, false).value.Failure?
  {
  }

  /**
   * The gain getter's documented range 1-51 is not the driver's to keep: when the
   * read fails it returns 0, and a successful read returns whatever the register holds.
   */
  lemma GainOutsideDocumentedRange(regs: Regs)
    ensures !ValidGain(GetGainCoefficient(regs, false).value)
    ensures ValidGain(GetGainCoefficient(regs, true).value) <==> ValidGain(regs[GAIN_REG])
  {
  }
}
