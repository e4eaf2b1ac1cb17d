/**
 * Any sequence of public method calls on one driver object. The driver keeps
 * no state of its own, so a session is a fold of the calls over the register file.
 */
module Session {
  import opened Bytes
  import opened Bus
  import opened RotaryEncoder

  /** One public method call, with the outcome of each transfer it issues. */
  datatype Call =
    | SetGain(gain: int, ok: bool)
    | SetEncoder(value: int, ok: bool)
    | GetInfo(ok: bool)
    | GetEncoder(ok: bool)
    | GetGain(ok: bool)
    | DetectButton(readOk: bool, writeOk: bool)

  /** The register file after one call. */
  function Apply(regs: Regs, c: Call): Regs {
    match c
    case SetGain(gain, ok) => SetGainCoefficient(regs, gain, ok).regs
    case SetEncoder(value, ok) => SetEncoderValue(regs, value, ok).regs
    case GetInfo(ok) => GetDeviceInfo(regs, ok).regs
    case GetEncoder(ok) => GetEncoderValue(regs, ok).regs
    case GetGain(ok) => GetGainCoefficient(regs, ok).regs
    case DetectButton(readOk, writeOk) => DetectButtonDown(regs, readOk, writeOk).regs
  }

  /** The transfers one call issues. */
  function Issued(regs: Regs, c: Call): seq<Txn> {
    match c
    case SetGain(gain, ok) => SetGainCoefficient(regs, gain, ok).bus
    case SetEncoder(value, ok) => SetEncoderValue(regs, value, ok).bus
    case GetInfo(ok) => GetDeviceInfo(regs, ok).bus
    case GetEncoder(ok) => GetEncoderValue(regs, ok).bus
    case GetGain(ok) => GetGainCoefficient(regs, ok).bus
    case DetectButton(readOk, writeOk) => DetectButtonDown(regs, readOk, writeOk).bus
  }

  /** The register file after the calls, in order. */
  function Run(regs: Regs, calls: seq<Call>): Regs
    decreases |calls|
  {
    if |calls| == 0 then regs else Run(Apply(regs, calls[0]), calls[1..])
  }

  /** Every transfer the calls issue, in order. */
  function Trace(regs: Regs, calls: seq<Call>): seq<Txn>
    decreases |calls|
  {
    if |calls| == 0 then [] else Issued(regs, calls[0]) + Trace(Apply(regs, calls[0]), calls[1..])
  }

  /**
   * What the driver can have done to a register file that started as `start`:
   * only registers 0x08-0x0B differ, a changed gain is in [1, 51], a changed
   * count is in [0, 1023], and a changed key status is 0.
   */
  predicate DriverWritesOnly(start: Regs, regs: Regs) {
    && (forall i :: 0 <= i < REGISTER_COUNT && !(COUNT_MSB_REG <= i <= GAIN_REG) ==> regs[i] == start[i])
    && (regs[GAIN_REG] == start[GAIN_REG] || ValidGain(regs[GAIN_REG]))
    && (CountOf(regs) == CountOf(start) || ValidCount(CountOf(regs)))
    && (regs[KEY_STATUS_REG] == start[KEY_STATUS_REG] || regs[KEY_STATUS_REG] == 0)
  }

  /** A transfer the driver may issue: a read, or a write of an in-range count, a key status clear, or an in-range gain. */
  predicate DriverTxn(t: Txn) {
    t.Write? ==>
      || (t.reg == COUNT_MSB_REG && |t.data| == 2 && t.data[0] <= 3)
      || (t.reg == KEY_STATUS_REG && t.data == [0])
      || (t.reg == GAIN_REG && |t.data| == 1 && ValidGain(t.data[0]))
  }

  /** Each single call keeps the driver's invariant. */
  lemma ApplyKeepsDriverWritesOnly(start: Regs, regs: Regs, c: Call)
    requires DriverWritesOnly(start, regs)
    ensures DriverWritesOnly(start, Apply(regs, c))
  {
  }

  /** Each single call issues only driver transfers. */
  lemma IssuedDriverTxns(regs: Regs, c: Call)
    ensures forall t :: t in Issued(regs, c) ==> DriverTxn(t)
  {
  }

  /**
   * Whatever calls are made, and whichever transfers fail, the identity block
   * and every other register outside 0x08-0x0B stay as they were, and the
   * driver never leaves an out-of-range gain or count, or a set key status.
   */
  lemma {:induction false} RunKeepsDriverWritesOnly(start: Regs, regs: Regs, calls: seq<Call>)
    requires DriverWritesOnly(start, regs)
    ensures DriverWritesOnly(start, Run(regs, calls))
    decreases |calls|
  {
    if |calls| > 0 {
      ApplyKeepsDriverWritesOnly(start, regs, calls[0]);
      RunKeepsDriverWritesOnly(start, Apply(regs, calls[0]), calls[1..]);
    }
  }

  /** Whatever calls are made, every write on the bus targets the count, key status or gain registers. */
  lemma {:induction false} TraceDriverTxns(regs: Regs, calls: seq<Call>)
    ensures forall t :: t in Trace(regs, calls) ==> DriverTxn(t)
    decreases |calls|
  {
    if |calls| > 0 {
      IssuedDriverTxns(regs, calls[0]);
      TraceDriverTxns(Apply(regs, calls[0]), calls[1..]);
    }
  }

  /** From any starting register file, a session only ever makes the changes `DriverWritesOnly` allows. */
  lemma SessionKeepsDriverWritesOnly(start: Regs, calls: seq<Call>)
    ensures DriverWritesOnly(start, Run(start, calls))
  {
    RunKeepsDriverWritesOnly(start, start, calls);
  }

  /**
   * If the device starts with a count in 0-1023 and a gain in 1-51, the getters'
   * documented ranges hold after any session: the count read is always in range,
   * and the gain read is in range whenever the read succeeds.
   */
  lemma GettersStayInDocumentedRange(start: Regs, calls: seq<Call>, ok: bool)
    requires ValidCount(CountOf(start)) && ValidGain(start[GAIN_REG])
    ensures ValidCount(GetEncoderValue(Run(start, calls), ok).value)
    ensures ok ==> ValidGain(GetGainCoefficient(Run(start, calls), ok).value)
  {
    SessionKeepsDriverWritesOnly(start, calls);
  }
}
