/**
 The NXP PN5180 host-interface command layer (class `PN5180` in NFC/__init__.py).
 Every operation takes the chip oracle and the bus trace so far and returns its Python
 return value together with the trace it leaves behind.
 */
module Pn5180 {
  import opened Wrappers
  import opened Bytes
  import opened Bus

  // Registers (class REGISTERS)
  const SYSTEM_CONFIG: byte := 0x00
  const IRQ_STATUS: byte := 0x02
  const IRQ_CLEAR: byte := 0x03
  const RX_STATUS: byte := 0x13
  const TX_CONFIG: byte := 0x18
  const RF_STATUS: byte := 0x1d

  // IRQ_STATUS bits (class IRQ_STATUS_REG)
  const IDLE_IRQ_STAT: u32 := 0x4
  const TX_RFOFF_IRQ_STAT: u32 := 0x100
  const TX_RFON_IRQ_STAT: u32 := 0x200
  const RX_SOF_DET_IRQ_STAT: u32 := 0x4000

  // Command opcodes (class CMDS)
  const WRITE_REGISTER: byte := 0x00
  const WRITE_REGISTER_OR_MASK: byte := 0x01
  const WRITE_REGISTER_AND_MASK: byte := 0x02
  const READ_REGISTER: byte := 0x04
  const READ_EEPROM: byte := 0x07
  const SEND_DATA: byte := 0x09
  const READ_DATA: byte := 0x0A
  const LOAD_RF_CONFIG: byte := 0x11
  const RF_ON: byte := 0x16
  const RF_OFF: byte := 0x17

  // Argument limits checked before any bus traffic
  const MAX_EEPROM_ADDR := 254
  const MAX_SEND_LEN := 260
  const MAX_READ_LEN := 508

  // Fixed frames
  const READ_DATA_FRAME: seq<byte> := [READ_DATA, 0x00]
  const RF_ON_FRAME: seq<byte> := [RF_ON, 0x00]
  const RF_OFF_FRAME: seq<byte> := [RF_OFF, 0x00]
  const EOF_FRAME: seq<byte> := [SEND_DATA, 0x00]

  // SYSTEM_CONFIG masks that stop any command (Idle/StopCom) and then arm Transceive
  const IDLE_STOPCOM_MASK: u32 := 0xfffffff8
  const TRANSCEIVE_MASK: u32 := 0x00000003

  /** The transceiver states of RF_STATUS bits 26:24 (class TRANSCEIVE_STAT). */
  datatype TransceiveState =
    | Idle | WaitTransmit | Transmitting | WaitReceive
    | WaitForData | Receiving | LoopBack | Reserved
  {
    function Code(): (c: nat)
      ensures c < 8
    {
      match this
      case Idle => 0
      case WaitTransmit => 1
      case Transmitting => 2
      case WaitReceive => 3
      case WaitForData => 4
      case Receiving => 5
      case LoopBack => 6
      case Reserved => 7
    }
  }

  function StateOfCode(c: nat): (s: TransceiveState)
    requires c < 8
    ensures s.Code() == c
  {
    match c
    case 0 => Idle
    case 1 => WaitTransmit
    case 2 => Transmitting
    case 3 => WaitReceive
    case 4 => WaitForData
    case 5 => Receiving
    case 6 => LoopBack
    case _ => Reserved
  }

  lemma StateCodeRoundTrip(s: TransceiveState)
    ensures StateOfCode(s.Code()) == s
  {
  }

  /** `(rf_status >> 24) & 0x07` on the decoded RF_STATUS word. */
  function TransceiveStateField(rfStatus: nat): (state: nat)
    ensures state < 8
  {
    (rfStatus / 0x100_0000) % 8
  }

  /** `rx_status & 0x1ff`: RX_NUM_BYTES_RECEIVED of the decoded RX_STATUS word. */
  function RxNumBytes(rxStatus: nat): (n: nat)
    ensures n < 0x200
  {
    rxStatus % 0x200
  }

  /** Bits 26:24 of a little-endian word are the low three bits of its last byte. */
  lemma {:induction false} TransceiveStateFieldOfBytes(b: seq<byte>)
    requires |b| == 4
    ensures TransceiveStateField(FromLE(b)) == b[3] % 8
  {
    FromLE4(b);
    var low := b[0] as int + 0x100 * b[1] as int + 0x1_0000 * b[2] as int;
    assert 0 <= low < 0x100_0000;
    assert FromLE(b) / 0x100_0000 == b[3];
  }

  /** The 9-bit receive length is byte 0 plus bit 0 of byte 1; it never exceeds 511. */
  lemma {:induction false} RxNumBytesOfBytes(b: seq<byte>)
    requires |b| == 4
    ensures RxNumBytes(FromLE(b)) == b[0] as int + 0x100 * (b[1] as int % 2)
    ensures RxNumBytes(FromLE(b)) <= 511
  {
    FromLE4(b);
    var q, r := b[1] as int / 2, b[1] as int % 2;
    assert b[1] as int == r + 2 * q;
    var low := b[0] as int + 0x100 * r;
    var high := q + 0x80 * b[2] as int + 0x8000 * b[3] as int;
    assert FromLE(b) == low + 0x200 * high;
    assert 0 <= low < 0x200;
    assert (low + 0x200 * high) % 0x200 == low;
  }

  /** RX_SOF_DET (bit 14) of a little-endian word is bit 6 of its second byte. */
  lemma {:induction false} SofFlagOfBytes(b: seq<byte>)
    requires |b| == 4
    ensures HasFlag(FromLE(b), RX_SOF_DET_IRQ_STAT) <==> (b[1] / 0x40) % 2 == 1
  {
    FromLE4(b);
    var q, r := b[1] as int / 0x40, b[1] as int % 0x40;
    assert b[1] as int == r + 0x40 * q;
    var low := b[0] as int + 0x100 * r;
    var high := q + 4 * b[2] as int + 0x400 * b[3] as int;
    assert FromLE(b) == low + 0x4000 * high;
    assert 0 <= low < 0x4000;
    assert FromLE(b) / 0x4000 == high;
    assert high % 2 == q % 2;
  }

  /**
   The state `get_transceive_state` reports for the RF_STATUS bytes `rf` read with success flag
   `ok`: Idle when the read failed, else the state coded in bits 26:24.
   */
  function StateOf(rf: seq<byte>, ok: bool): (s: TransceiveState)
    requires |rf| == 4
    ensures !ok ==> s == Idle
    ensures ok ==> s.Code() == rf[3] % 8
  {
    if !ok then Idle
    else
      TransceiveStateFieldOfBytes(rf);
      StateOfCode(TransceiveStateField(FromLE(rf)))
  }

  // ---------------------------------------------------------------------------
  // Register command frames

  /** The content of a WRITE_REGISTER / OR-mask / AND-mask frame. */
  datatype RegisterCommand = RegisterCommand(opcode: byte, reg: byte, value: u32)

  /** Opcode, register, then the 32-bit value or mask little-endian. */
  function RegisterFrame(opcode: byte, reg: byte, value: u32): (f: seq<byte>)
    ensures |f| == 6 && f[0] == opcode && f[1] == reg
    ensures FromLE(f[2..]) == value
  {
    assert ([opcode, reg] + LE4(value))[2..] == LE4(value);
    [opcode, reg] + LE4(value)
  }

  /** Parses a six-byte register command frame; any other length is not one. */
  function DecodeRegisterFrame(f: seq<byte>): (c: Option<RegisterCommand>)
    ensures c.Some? <==> |f| == 6
    ensures c.Some? ==> c.value.opcode == f[0] && c.value.reg == f[1]
  {
    if |f| == 6 then
      assert Pow256(4) == 0x1_0000_0000;
      Some(RegisterCommand(f[0], f[1], FromLE(f[2..])))
    else None
  }

  /** Decoding a built frame gives back its opcode, register and value. */
  lemma RegisterFrameRoundTrip(c: RegisterCommand)
    ensures DecodeRegisterFrame(RegisterFrame(c.opcode, c.reg, c.value)) == Some(c)
  {
  }

  /** Every six-byte frame is the frame of the command it decodes to. */
  lemma {:induction false} DecodeRegisterFrameInverse(f: seq<byte>)
    requires |f| == 6
    ensures RegisterFrame(f[0], f[1], DecodeRegisterFrame(f).value.value) == f
  {
    var c := DecodeRegisterFrame(f).value;
    ToLEFromLE(f[2..]);
    assert Pow256(4) == 0x1_0000_0000;
    assert LE4(c.value) == f[2..];
    assert f == [f[0], f[1]] + f[2..];
  }

  /** `e` writes the register command `c` and reads nothing. */
  predicate IsRegisterWrite(e: Transaction, c: RegisterCommand)
  {
    e.rxLen == 0 && e.rx == [] && DecodeRegisterFrame(e.tx) == Some(c)
  }

  /** A register write on the wire carries exactly the frame of its command. */
  lemma RegisterWriteFrame(e: Transaction, c: RegisterCommand)
    requires IsRegisterWrite(e, c)
    ensures e.tx == RegisterFrame(c.opcode, c.reg, c.value)
  {
    DecodeRegisterFrameInverse(e.tx);
  }

  /** `e` reads the four bytes of register `reg`. */
  predicate IsRegisterRead(e: Transaction, reg: byte)
  {
    IsRead(e, [READ_REGISTER, reg], 4)
  }

  /** The decoded IRQ_STATUS word of an IRQ_STATUS read. */
  function IrqWord(e: Transaction): (w: nat)
    ensures |e.rx| == 4 ==> w < 0x1_0000_0000
  {
    assert Pow256(4) == 0x1_0000_0000;
    FromLE(e.rx)
  }

  // ---------------------------------------------------------------------------
  // Register access

  method RegisterWrite(chip: Chip, t: Trace, opcode: byte, reg: byte, value: u32) returns (ok: bool, t': Trace)
    ensures ok && Extends(t, t', 1) && AnsweredFrom(chip, t', |t|)
    ensures IsRegisterWrite(t'[|t|], RegisterCommand(opcode, reg, value))
  {
    var _, u := Transceive(chip, t, RegisterFrame(opcode, reg, value), 0);
    ok, t' := true, u;
  }

  /** `write_register`: one write-only frame `[0x00, reg] ++ LE4(value)`; returns True. */
  method WriteRegister(chip: Chip, t: Trace, reg: byte, value: u32) returns (ok: bool, t': Trace)
    ensures ok && Extends(t, t', 1) && AnsweredFrom(chip, t', |t|)
    ensures IsRegisterWrite(t'[|t|], RegisterCommand(WRITE_REGISTER, reg, value))
  {
    ok, t' := RegisterWrite(chip, t, WRITE_REGISTER, reg, value);
  }

  /** `write_register_with_or_mask`: as `write_register` with opcode 0x01. */
  method WriteRegisterOrMask(chip: Chip, t: Trace, reg: byte, mask: u32) returns (ok: bool, t': Trace)
    ensures ok && Extends(t, t', 1) && AnsweredFrom(chip, t', |t|)
    ensures IsRegisterWrite(t'[|t|], RegisterCommand(WRITE_REGISTER_OR_MASK, reg, mask))
  {
    ok, t' := RegisterWrite(chip, t, WRITE_REGISTER_OR_MASK, reg, mask);
  }

  /** `write_register_with_and_mask`: as `write_register` with opcode 0x02. */
  method WriteRegisterAndMask(chip: Chip, t: Trace, reg: byte, mask: u32) returns (ok: bool, t': Trace)
    ensures ok && Extends(t, t', 1) && AnsweredFrom(chip, t', |t|)
    ensures IsRegisterWrite(t'[|t|], RegisterCommand(WRITE_REGISTER_AND_MASK, reg, mask))
  {
    ok, t' := RegisterWrite(chip, t, WRITE_REGISTER_AND_MASK, reg, mask);
  }

  /**
   `read_register`: frame `[0x04, reg]`, and the four bytes the chip answers come back; the
   success flag is always True.
   */
  method ReadRegister(chip: Chip, t: Trace, reg: byte) returns (bytes: seq<byte>, ok: bool, t': Trace)
    ensures ok && Extends(t, t', 1) && AnsweredFrom(chip, t', |t|)
    ensures IsRegisterRead(t'[|t|], reg) && bytes == t'[|t|].rx
    ensures bytes == Answer(chip, t, [READ_REGISTER, reg], 4)
  {
    var rx;
    rx, t' := Transceive(chip, t, [READ_REGISTER, reg], 4);
    bytes, ok := rx.bytes, true;
  }

  /** `get_irq_status`: the IRQ_STATUS word the chip answers, decoded little-endian. */
  method GetIrqStatus(chip: Chip, t: Trace) returns (irq: nat, t': Trace)
    ensures Extends(t, t', 1) && AnsweredFrom(chip, t', |t|)
    ensures IsRegisterRead(t'[|t|], IRQ_STATUS) && irq == IrqWord(t'[|t|])
    ensures irq == FromLE(Answer(chip, t, [READ_REGISTER, IRQ_STATUS], 4))
    ensures irq < 0x1_0000_0000
  {
    var bytes, ok;
    bytes, ok, t' := ReadRegister(chip, t, IRQ_STATUS);
    assert Pow256(4) == 0x1_0000_0000;
    irq := FromLE(bytes);
  }

  /** `clear_irq_status`: writes `mask` to IRQ_CLEAR; returns True. */
  method ClearIrqStatus(chip: Chip, t: Trace, mask: u32) returns (ok: bool, t': Trace)
    ensures ok && Extends(t, t', 1) && AnsweredFrom(chip, t', |t|)
    ensures IsRegisterWrite(t'[|t|], RegisterCommand(WRITE_REGISTER, IRQ_CLEAR, mask))
  {
    ok, t' := WriteRegister(chip, t, IRQ_CLEAR, mask);
  }

  /**
   `get_transceive_state`: reads RF_STATUS and reports the state in bits 26:24 of the chip's
   answer. The Idle fallback for a failed read is in `StateOf`; `read_register` never reports
   failure.
   */
  method GetTransceiveState(chip: Chip, t: Trace) returns (state: TransceiveState, t': Trace)
    ensures Extends(t, t', 1) && AnsweredFrom(chip, t', |t|)
    ensures IsRegisterRead(t'[|t|], RF_STATUS) && state.Code() == t'[|t|].rx[3] % 8
    ensures state.Code() == Answer(chip, t, [READ_REGISTER, RF_STATUS], 4)[3] % 8
  {
    var bytes, ok;
    bytes, ok, t' := ReadRegister(chip, t, RF_STATUS);
    state := StateOf(bytes, ok);
  }

  // ---------------------------------------------------------------------------
  // Commands

  /**
   `read_eeprom`: an address above 254 is refused (False, no traffic); otherwise frame
   `[0x07, addr, n]` reads `n` bytes, returned as `(rxdata, True)`.
   */
  method ReadEeprom(chip: Chip, t: Trace, addr: nat, n: byte) returns (r: Option<RxData>, t': Trace)
    ensures addr > MAX_EEPROM_ADDR ==> r.None? && t' == t
    ensures addr <= MAX_EEPROM_ADDR ==> Extends(t, t', 1) && AnsweredFrom(chip, t', |t|)
    ensures addr <= MAX_EEPROM_ADDR ==> IsRead(t'[|t|], [READ_EEPROM, addr, n], n) && r == Some(RxOf(t'[|t|]))
    ensures addr <= MAX_EEPROM_ADDR && n == 0 ==> r == Some(NoData)
    ensures addr <= MAX_EEPROM_ADDR && n > 0 ==> r == Some(Data(Answer(chip, t, [READ_EEPROM, addr, n], n)))
  {
    if addr > MAX_EEPROM_ADDR {
      return None, t;
    }
    var rx;
    rx, t' := Transceive(chip, t, [READ_EEPROM, addr, n], n);
    r := Some(rx);
  }

  /**
   The traffic `send_data(data, vb)` leaves on the bus once past its length guard: stop any
   command, arm Transceive, read RF_STATUS, and send `[0x09, vb] ++ data` exactly when the
   transceiver reports WaitTransmit.
   */
  predicate SendDataSegment(seg: seq<Transaction>, data: seq<byte>, vb: byte)
  {
    && |seg| >= 3
    && IsRegisterWrite(seg[0], RegisterCommand(WRITE_REGISTER_AND_MASK, SYSTEM_CONFIG, IDLE_STOPCOM_MASK))
    && IsRegisterWrite(seg[1], RegisterCommand(WRITE_REGISTER_OR_MASK, SYSTEM_CONFIG, TRANSCEIVE_MASK))
    && IsRegisterRead(seg[2], RF_STATUS)
    && if StateOf(seg[2].rx, true) == WaitTransmit then
         |seg| == 4 && IsWrite(seg[3], [SEND_DATA, vb] + data)
       else |seg| == 3
  }

  /**
   `send_data`: more than 260 bytes is refused (False, no traffic); otherwise the transceiver
   is re-armed and the payload goes out only if the chip then reports WaitTransmit, which is
   also exactly when True is returned.
   */
  method SendData(chip: Chip, t: Trace, data: seq<byte>, validBits: byte) returns (ok: bool, t': Trace)
    ensures |data| > MAX_SEND_LEN ==> !ok && t' == t
    ensures |data| <= MAX_SEND_LEN ==> Grows(t, t') && AnsweredFrom(chip, t', |t|)
    ensures |data| <= MAX_SEND_LEN ==> SendDataSegment(t'[|t|..], data, validBits)
    ensures |data| <= MAX_SEND_LEN ==> (ok <==> |t'| == |t| + 4)
    ensures |data| <= MAX_SEND_LEN ==>
      (ok <==> StateOf(Answer(chip, t'[..|t| + 2], [READ_REGISTER, RF_STATUS], 4), true) == WaitTransmit)
  {
    if |data| > MAX_SEND_LEN {
      return false, t;
    }
    var _, a := WriteRegisterAndMask(chip, t, SYSTEM_CONFIG, IDLE_STOPCOM_MASK);
    var _, o := WriteRegisterOrMask(chip, a, SYSTEM_CONFIG, TRANSCEIVE_MASK);
    var state, s := GetTransceiveState(chip, o);
    AnsweredJoin(chip, a, o, |t|);
    AnsweredJoin(chip, o, s, |t|);
    GrowsTrans(t, a, o);
    GrowsTrans(t, o, s);
    PrefixIndex(a, s, |t|);
    PrefixIndex(o, s, |t| + 1);
    assert state == StateOf(s[|t| + 2].rx, true) by {
      assert StateOf(s[|t| + 2].rx, true).Code() == state.Code();
    }
    if state != WaitTransmit {
      return false, s;
    }
    var _, u := Transceive(chip, s, [SEND_DATA, validBits] + data, 0);
    AnsweredJoin(chip, s, u, |t|);
    GrowsTrans(t, s, u);
    GrowsTrans(o, s, u);
    SliceOfExtension(s, u, |t|, |s|);
    assert u[|t|..|t| + 3] == s[|t|..];
    ok, t' := true, u;
  }

  /**
   `read_data`: more than 508 bytes is refused (0, no traffic); otherwise frame `[0x0A, 0x00]`
   reads `len` bytes and returns what the chip answers (0 when `len` is 0).
   */
  method ReadData(chip: Chip, t: Trace, len: nat) returns (data: RxData, t': Trace)
    ensures len > MAX_READ_LEN ==> data == NoData && t' == t
    ensures len <= MAX_READ_LEN ==> Extends(t, t', 1) && AnsweredFrom(chip, t', |t|)
    ensures len <= MAX_READ_LEN ==> IsRead(t'[|t|], READ_DATA_FRAME, len) && data == RxOf(t'[|t|])
    ensures len == 0 ==> data == NoData
    ensures 0 < len <= MAX_READ_LEN ==> data == Data(Answer(chip, t, READ_DATA_FRAME, len))
  {
    if len > MAX_READ_LEN {
      return NoData, t;
    }
    data, t' := Transceive(chip, t, READ_DATA_FRAME, len);
  }

  /** `load_RF_Config`: write-only frame `[0x11, txConf, rxConf]`; returns True. */
  method LoadRfConfig(chip: Chip, t: Trace, txConf: byte, rxConf: byte) returns (ok: bool, t': Trace)
    ensures ok && Extends(t, t', 1) && AnsweredFrom(chip, t', |t|)
    ensures IsWrite(t'[|t|], [LOAD_RF_CONFIG, txConf, rxConf])
  {
    var _, u := Transceive(chip, t, [LOAD_RF_CONFIG, txConf, rxConf], 0);
    ok, t' := true, u;
  }

  /** `send_eof`: the bare SEND_DATA frame `[0x09, 0x00]`, which closes an inventory slot. */
  method SendEof(chip: Chip, t: Trace) returns (ok: bool, t': Trace)
    ensures ok && Extends(t, t', 1) && AnsweredFrom(chip, t', |t|)
    ensures IsWrite(t'[|t|], EOF_FRAME)
  {
    var _, u := Transceive(chip, t, EOF_FRAME, 0);
    ok, t' := true, u;
  }

  /**
   `set_RF_off`: RF_OFF frame, then clear TX_RFOFF in IRQ_STATUS. It does not wait for the
   field to drop.
   */
  method SetRfOff(chip: Chip, t: Trace) returns (ok: bool, t': Trace)
    ensures ok && Extends(t, t', 2) && AnsweredFrom(chip, t', |t|)
    ensures IsWrite(t'[|t|], RF_OFF_FRAME)
    ensures IsRegisterWrite(t'[|t| + 1], RegisterCommand(WRITE_REGISTER, IRQ_CLEAR, TX_RFOFF_IRQ_STAT))
  {
    var _, u := Transceive(chip, t, RF_OFF_FRAME, 0);
    ok, t' := ClearIrqStatus(chip, u, TX_RFOFF_IRQ_STAT);
    AnsweredJoin(chip, u, t', |t|);
    GrowsTrans(t, u, t');
    PrefixIndex(u, t', |t|);
  }

  // ---------------------------------------------------------------------------
  // Polling IRQ_STATUS

  /**
   A run of IRQ_STATUS reads that stops at the first word carrying `flag`:
   every earlier read lacks it.
   */
  predicate PollSegment(seg: seq<Transaction>, flag: u32)
    requires IsBit(flag)
  {
    && |seg| >= 1
    && (forall i | 0 <= i < |seg| :: IsRegisterRead(seg[i], IRQ_STATUS))
    && HasFlag(IrqWord(seg[|seg| - 1]), flag)
    && (forall i | 0 <= i < |seg| - 1 :: !HasFlag(IrqWord(seg[i]), flag))
  }

  /** `n` IRQ_STATUS reads, none of which carries `flag`. */
  predicate PollExhausted(seg: seq<Transaction>, flag: u32, n: nat)
    requires IsBit(flag)
  {
    && |seg| == n
    && (forall i | 0 <= i < |seg| :: IsRegisterRead(seg[i], IRQ_STATUS))
    && (forall i | 0 <= i < |seg| :: !HasFlag(IrqWord(seg[i]), flag))
  }

  /**
   `while (flag & get_irq_status()) == 0: pass`, cut off after `fuel` reads. `seen` is false
   only when the chip has not raised `flag` within them; the driver would go on polling.
   */
  method PollIrq(chip: Chip, t: Trace, flag: u32, fuel: nat) returns (seen: bool, t': Trace)
    requires IsBit(flag)
    ensures Grows(t, t') && |t'| <= |t| + fuel && AnsweredFrom(chip, t', |t|)
    ensures seen ==> PollSegment(t'[|t|..], flag)
    ensures !seen ==> PollExhausted(t'[|t|..], flag, fuel)
  {
    t', seen := t, false;
    var polls := 0;
    while polls < fuel && !seen
      invariant polls <= fuel && |t'| == |t| + polls && Grows(t, t')
      invariant AnsweredFrom(chip, t', |t|)
      invariant forall i | |t| <= i < |t'| :: IsRegisterRead(t'[i], IRQ_STATUS)
      invariant seen ==> polls >= 1 && HasFlag(IrqWord(t'[|t'| - 1]), flag)
      invariant forall i | |t| <= i < |t'| - (if seen then 1 else 0) :: !HasFlag(IrqWord(t'[i]), flag)
    {
      var irq, u := GetIrqStatus(chip, t');
      AnsweredJoin(chip, t', u, |t|);
      GrowsTrans(t, t', u);
      assert forall i | 0 <= i < |t'| :: u[i] == t'[i] by {
        assert forall i | 0 <= i < |t'| :: u[i] == u[..|t'|][i];
      }
      t', polls, seen := u, polls + 1, HasFlag(irq, flag);
    }
  }

  /**
   `reset` once the reset pulse is over: poll until IDLE_IRQ is raised (within `fuel` reads),
   then clear every IRQ bit. `done` is false when the chip never reports Idle within the fuel.
   */
  method Reset(chip: Chip, t: Trace, fuel: nat) returns (done: bool, t': Trace)
    ensures Grows(t, t') && AnsweredFrom(chip, t', |t|)
    ensures done ==> |t| + 2 <= |t'| && PollSegment(t'[|t|..|t'| - 1], IDLE_IRQ_STAT)
    ensures done ==> IsRegisterWrite(t'[|t'| - 1], RegisterCommand(WRITE_REGISTER, IRQ_CLEAR, 0xffffffff))
    ensures !done ==> PollExhausted(t'[|t|..], IDLE_IRQ_STAT, fuel)
  {
    var seen, p := PollIrq(chip, t, IDLE_IRQ_STAT, fuel);
    if !seen {
      return false, p;
    }
    var _, c := ClearIrqStatus(chip, p, 0xffffffff);
    AnsweredJoin(chip, p, c, |t|);
    SliceOfExtension(p, c, |t|, |p|);
    GrowsTrans(t, p, c);
    done, t' := true, c;
  }

  /**
   `set_RF_on`: RF_ON frame, poll until TX_RFON is raised (within `fuel` reads), then clear
   that bit and return True. `None` when the field is never confirmed within the fuel.
   */
  method SetRfOn(chip: Chip, t: Trace, fuel: nat) returns (r: Option<bool>, t': Trace)
    ensures Grows(t, t') && |t| + 1 <= |t'| && AnsweredFrom(chip, t', |t|)
    ensures IsWrite(t'[|t|], RF_ON_FRAME)
    ensures r.Some? ==> r.value && |t| + 3 <= |t'|
    ensures r.Some? ==> PollSegment(t'[|t| + 1..|t'| - 1], TX_RFON_IRQ_STAT)
    ensures r.Some? ==> IsRegisterWrite(t'[|t'| - 1], RegisterCommand(WRITE_REGISTER, IRQ_CLEAR, TX_RFON_IRQ_STAT))
    ensures r.None? ==> PollExhausted(t'[|t| + 1..], TX_RFON_IRQ_STAT, fuel)
  {
    var _, on := Transceive(chip, t, RF_ON_FRAME, 0);
    var seen, p := PollIrq(chip, on, TX_RFON_IRQ_STAT, fuel);
    AnsweredJoin(chip, on, p, |t|);
    GrowsTrans(t, on, p);
    PrefixIndex(on, p, |t|);
    if !seen {
      return None, p;
    }
    var _, c := ClearIrqStatus(chip, p, TX_RFON_IRQ_STAT);
    AnsweredJoin(chip, p, c, |t|);
    SliceOfExtension(p, c, |t| + 1, |p|);
    GrowsTrans(t, p, c);
    PrefixIndex(p, c, |t|);
    r, t' := Some(true), c;
  }
}
