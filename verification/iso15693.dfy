/**
 The ISO/IEC 15693 layer (class `ISO15693` in NFC/__init__.py): RF set-up and the 16-slot
 Inventory with anticollision, built on the PN5180 command layer.
 */
module Iso15693 {
  import opened Wrappers
  import opened Bytes
  import opened Bus
  import opened Pn5180

  /** The PN5180 RF configuration indices of the ISO/IEC 15693 profile (TX and RX). */
  const ISO15693_TX_CONF: byte := 0x0D
  const ISO15693_RX_CONF: byte := 0x8D

  /** IRQ_CLEAR mask used around the inventory: every status bit the driver uses. */
  const IRQ_CLEAR_MASK: u32 := 0x000fffff

  /** TX_CONFIG AND-mask that makes the next transmission an EOF only. */
  const TX_EOF_ONLY_MASK: u32 := 0xfffffb3f

  const SLOT_COUNT := 16

  // Error codes (class ISO15693_ERROR_CODE)
  const EC_OK := 0
  const EC_NO_CARD := -1

  // Request flags of ISO/IEC 15693-3 (section 7.3.1), bits 1..8 of the first request byte
  const FLAG_SUBCARRIER: nat := 0x01
  const FLAG_DATA_RATE: nat := 0x02
  const FLAG_INVENTORY: nat := 0x04
  const FLAG_PROTOCOL_EXTENSION: nat := 0x08
  const FLAG_AFI: nat := 0x10
  const FLAG_NB_SLOTS: nat := 0x20
  const FLAG_OPTION: nat := 0x40
  const FLAG_RFU: nat := 0x80

  const INVENTORY_COMMAND: byte := 0x01

  /**
   The Inventory request body `[flags, command, mask length]`: high data rate, one subcarrier,
   Inventory flag set, no AFI byte, 16 slots, no option, RFU bit clear, no mask.
   */
  function InventoryRequest(): (r: seq<byte>)
    ensures |r| == 3
    ensures HasFlag(r[0], FLAG_DATA_RATE) && HasFlag(r[0], FLAG_INVENTORY)
    ensures !HasFlag(r[0], FLAG_SUBCARRIER) && !HasFlag(r[0], FLAG_PROTOCOL_EXTENSION)
    ensures !HasFlag(r[0], FLAG_AFI) && !HasFlag(r[0], FLAG_NB_SLOTS)
    ensures !HasFlag(r[0], FLAG_OPTION) && !HasFlag(r[0], FLAG_RFU)
    ensures r[1] == INVENTORY_COMMAND && r[2] == 0
  {
    [0x06, INVENTORY_COMMAND, 0x00]
  }

  // ---------------------------------------------------------------------------
  // RF set-up

  /** RF off (and clear TX_RFOFF), load the ISO/IEC 15693 RF configuration, RF on. */
  predicate RfRestart(seg: seq<Transaction>)
  {
    && |seg| >= 4
    && IsWrite(seg[0], RF_OFF_FRAME)
    && IsRegisterWrite(seg[1], RegisterCommand(WRITE_REGISTER, IRQ_CLEAR, TX_RFOFF_IRQ_STAT))
    && IsWrite(seg[2], [LOAD_RF_CONFIG, ISO15693_TX_CONF, ISO15693_RX_CONF])
    && IsWrite(seg[3], RF_ON_FRAME)
  }

  /**
   The traffic of a `setup_RF` that returns True: the RF restart, IRQ_STATUS polled until
   TX_RFON, TX_RFON cleared, then Idle/StopCom and Transceive armed in SYSTEM_CONFIG.
   */
  predicate SetupSegment(seg: seq<Transaction>)
  {
    && |seg| >= 8
    && RfRestart(seg)
    && PollSegment(seg[4..|seg| - 3], TX_RFON_IRQ_STAT)
    && IsRegisterWrite(seg[|seg| - 3], RegisterCommand(WRITE_REGISTER, IRQ_CLEAR, TX_RFON_IRQ_STAT))
    && IsRegisterWrite(seg[|seg| - 2], RegisterCommand(WRITE_REGISTER_AND_MASK, SYSTEM_CONFIG, IDLE_STOPCOM_MASK))
    && IsRegisterWrite(seg[|seg| - 1], RegisterCommand(WRITE_REGISTER_OR_MASK, SYSTEM_CONFIG, TRANSCEIVE_MASK))
  }

  /** The traffic of a `setup_RF` still waiting for TX_RFON after `fuel` IRQ_STATUS reads. */
  predicate SetupUnconfirmed(seg: seq<Transaction>, fuel: nat)
  {
    && |seg| == 4 + fuel
    && RfRestart(seg)
    && PollExhausted(seg[4..], TX_RFON_IRQ_STAT, fuel)
  }

  /**
   `setup_RF`: RF off, load the ISO/IEC 15693 RF configuration, RF on (waiting for TX_RFON
   within `fuel` IRQ reads), then stop any command and arm Transceive; returns True. `None`
   when RF-on is never confirmed within the fuel. The driver's two failure branches are never
   taken: `load_RF_Config` and `set_RF_on` only ever return True.
   */
  method SetupRf(chip: Chip, t: Trace, fuel: nat) returns (r: Option<bool>, t': Trace)
    ensures Grows(t, t') && AnsweredFrom(chip, t', |t|)
    ensures r.Some? ==> r.value && SetupSegment(t'[|t|..])
    ensures r.None? ==> SetupUnconfirmed(t'[|t|..], fuel)
  {
    var _, off := SetRfOff(chip, t);
    var _, load := LoadRfConfig(chip, off, ISO15693_TX_CONF, ISO15693_RX_CONF);
    PrefixIndex(off, load, |t|);
    PrefixIndex(off, load, |t| + 1);
    var on, p := SetRfOn(chip, load, fuel);
    AnsweredJoin(chip, off, load, |t|);
    AnsweredJoin(chip, load, p, |t|);
    RestartOnWire(t, load, p);
    if on.None? {
      UnconfirmedOnWire(t, p, fuel);
      return None, p;
    }
    var _, a := WriteRegisterAndMask(chip, p, SYSTEM_CONFIG, IDLE_STOPCOM_MASK);
    var _, o := WriteRegisterOrMask(chip, a, SYSTEM_CONFIG, TRANSCEIVE_MASK);
    AnsweredJoin(chip, p, a, |t|);
    AnsweredJoin(chip, a, o, |t|);
    ArmOnWire(t, p, a, o);
    r, t' := Some(true), o;
  }

  /** RF off, the TX_RFOFF clear and the configuration load, then RF on: an `RfRestart`. */
  lemma RestartOnWire(t: Trace, load: Trace, p: Trace)
    requires Extends(t, load, 3)
    requires IsWrite(load[|t|], RF_OFF_FRAME)
    requires IsRegisterWrite(load[|t| + 1], RegisterCommand(WRITE_REGISTER, IRQ_CLEAR, TX_RFOFF_IRQ_STAT))
    requires IsWrite(load[|t| + 2], [LOAD_RF_CONFIG, ISO15693_TX_CONF, ISO15693_RX_CONF])
    requires Grows(load, p) && |load| < |p| && IsWrite(p[|load|], RF_ON_FRAME)
    ensures Grows(t, p) && RfRestart(p[|t|..])
  {
    GrowsTrans(t, load, p);
    PrefixIndex(load, p, |t|);
    PrefixIndex(load, p, |t| + 1);
    PrefixIndex(load, p, |t| + 2);
  }

  /** An RF restart followed by `fuel` IRQ reads without TX_RFON: a `SetupUnconfirmed`. */
  lemma UnconfirmedOnWire(t: Trace, p: Trace, fuel: nat)
    requires |t| + 4 <= |p| && RfRestart(p[|t|..])
    requires PollExhausted(p[|t| + 4..], TX_RFON_IRQ_STAT, fuel)
    ensures SetupUnconfirmed(p[|t|..], fuel)
  {
    assert p[|t|..][4..] == p[|t| + 4..];
  }

  /** A confirmed RF restart followed by the Idle/StopCom and Transceive writes: a `SetupSegment`. */
  lemma ArmOnWire(t: Trace, p: Trace, a: Trace, o: Trace)
    requires Grows(t, p) && |t| + 5 <= |p| && RfRestart(p[|t|..])
    requires PollSegment(p[|t| + 4..|p| - 1], TX_RFON_IRQ_STAT)
    requires IsRegisterWrite(p[|p| - 1], RegisterCommand(WRITE_REGISTER, IRQ_CLEAR, TX_RFON_IRQ_STAT))
    requires Extends(p, a, 1)
    requires IsRegisterWrite(a[|p|], RegisterCommand(WRITE_REGISTER_AND_MASK, SYSTEM_CONFIG, IDLE_STOPCOM_MASK))
    requires Extends(a, o, 1)
    requires IsRegisterWrite(o[|a|], RegisterCommand(WRITE_REGISTER_OR_MASK, SYSTEM_CONFIG, TRANSCEIVE_MASK))
    ensures Grows(t, o) && SetupSegment(o[|t|..])
  {
    GrowsTrans(p, a, o);
    GrowsTrans(t, p, o);
    PrefixIndex(p, o, |t|);
    PrefixIndex(p, o, |t| + 1);
    PrefixIndex(p, o, |t| + 2);
    PrefixIndex(p, o, |t| + 3);
    PrefixIndex(p, o, |p| - 1);
    PrefixIndex(a, o, |p|);
    SliceOfExtension(p, o, |t| + 4, |p| - 1);
    var seg := o[|t|..];
    assert seg[4..|seg| - 3] == o[|t| + 4..|p| - 1];
  }

  // ---------------------------------------------------------------------------
  // One anticollision slot

  /**
   The five exchanges that close a slot: TX_CONFIG set to send only an EOF, Idle/StopCom,
   Transceive, clear the IRQ status, and the EOF frame itself.
   */
  predicate SlotAdvance(seg: seq<Transaction>)
  {
    && |seg| == 5
    && IsRegisterWrite(seg[0], RegisterCommand(WRITE_REGISTER_AND_MASK, TX_CONFIG, TX_EOF_ONLY_MASK))
    && IsRegisterWrite(seg[1], RegisterCommand(WRITE_REGISTER_AND_MASK, SYSTEM_CONFIG, IDLE_STOPCOM_MASK))
    && IsRegisterWrite(seg[2], RegisterCommand(WRITE_REGISTER_OR_MASK, SYSTEM_CONFIG, TRANSCEIVE_MASK))
    && IsRegisterWrite(seg[3], RegisterCommand(WRITE_REGISTER, IRQ_CLEAR, IRQ_CLEAR_MASK))
    && IsWrite(seg[4], EOF_FRAME)
  }

  /**
   What follows a slot's IRQ_STATUS read whose word is `irq`. A response `frame` is collected
   exactly when RX_SOF_DET is set in it: RX_STATUS is read, and its 9-bit length `n` is fetched
   with READ_DATA unless `n` exceeds 508 (then nothing is read and the collected value is 0).
   Without RX_SOF_DET nothing is exchanged.
   */
  predicate FrameFetch(seg: seq<Transaction>, irq: nat, frame: Option<RxData>)
  {
    && (frame.Some? <==> HasFlag(irq, RX_SOF_DET_IRQ_STAT))
    && (frame.None? ==> |seg| == 0)
    && (frame.Some? ==>
          && |seg| >= 1
          && IsRegisterRead(seg[0], RX_STATUS)
          && var n := RxNumBytes(FromLE(seg[0].rx));
          if n > MAX_READ_LEN then |seg| == 1 && frame.value == NoData
          else |seg| == 2 && IsRead(seg[1], READ_DATA_FRAME, n) && frame.value == RxOf(seg[1]))
  }

  /**
   The bus traffic of one slot: an IRQ_STATUS read whose word is `irq`, the `FrameFetch` it
   calls for, and the five exchanges of `SlotAdvance`.
   */
  predicate SlotSegment(seg: seq<Transaction>, irq: nat, frame: Option<RxData>)
  {
    && |seg| >= 6
    && IsRegisterRead(seg[0], IRQ_STATUS) && irq == IrqWord(seg[0])
    && FrameFetch(seg[1..|seg| - 5], irq, frame)
    && SlotAdvance(seg[|seg| - 5..])
  }

  /** Where slot `start..stop` of a trace lies, what IRQ word opened it and what it collected. */
  datatype SlotRecord = SlotRecord(start: nat, stop: nat, irq: nat, frame: Option<RxData>)

  predicate SlotOnWire(tr: Trace, rec: SlotRecord)
  {
    rec.start <= rec.stop <= |tr| && SlotSegment(tr[rec.start..rec.stop], rec.irq, rec.frame)
  }

  /** Lines 359-364: advance to the next slot, whether or not a tag answered. */
  method AdvanceSlot(chip: Chip, t: Trace) returns (t': Trace)
    ensures Extends(t, t', 5) && AnsweredFrom(chip, t', |t|)
    ensures SlotAdvance(t'[|t|..])
  {
    var _, a1 := WriteRegisterAndMask(chip, t, TX_CONFIG, TX_EOF_ONLY_MASK);
    var _, a2 := WriteRegisterAndMask(chip, a1, SYSTEM_CONFIG, IDLE_STOPCOM_MASK);
    var _, a3 := WriteRegisterOrMask(chip, a2, SYSTEM_CONFIG, TRANSCEIVE_MASK);
    var _, c := ClearIrqStatus(chip, a3, IRQ_CLEAR_MASK);
    var _, e := SendEof(chip, c);
    AnsweredJoin(chip, a1, a2, |t|);
    AnsweredJoin(chip, a2, a3, |t|);
    AnsweredJoin(chip, a3, c, |t|);
    AnsweredJoin(chip, c, e, |t|);
    GrowsTrans(a1, a2, a3);
    GrowsTrans(a1, a3, c);
    GrowsTrans(a1, c, e);
    GrowsTrans(t, a1, e);
    GrowsTrans(a2, a3, c);
    GrowsTrans(a2, c, e);
    GrowsTrans(a3, c, e);
    PrefixIndex(a1, e, |t|);
    PrefixIndex(a2, e, |t| + 1);
    PrefixIndex(a3, e, |t| + 2);
    PrefixIndex(c, e, |t| + 3);
    t' := e;
  }

  /**
   Lines 352-357 after the IRQ read: when RX_SOF_DET is set in `irq`, read RX_STATUS and
   READ_DATA its 9-bit length, returning what came back.
   */
  method FetchFrame(chip: Chip, t: Trace, irq: nat) returns (frame: Option<RxData>, t': Trace)
    ensures Grows(t, t') && AnsweredFrom(chip, t', |t|)
    ensures FrameFetch(t'[|t|..], irq, frame)
  {
    if !HasFlag(irq, RX_SOF_DET_IRQ_STAT) {
      return None, t;
    }
    var rxStatus, _, v := ReadRegister(chip, t, RX_STATUS);
    var length := RxNumBytes(FromLE(rxStatus));
    var data, w := ReadData(chip, v, length);
    AnsweredJoin(chip, v, w, |t|);
    PrefixIndex(v, w, |t|);
    GrowsTrans(t, v, w);
    frame, t' := Some(data), w;
  }

  /** The body of the slot loop, lines 352-364: read IRQ_STATUS, fetch a frame, advance. */
  method RunSlot(chip: Chip, t: Trace) returns (rec: SlotRecord, t': Trace)
    ensures Grows(t, t') && |t| + 6 <= |t'| && AnsweredFrom(chip, t', |t|)
    ensures rec.start == |t| && rec.stop == |t'|
    ensures SlotOnWire(t', rec)
    ensures rec.irq == FromLE(Answer(chip, t, [READ_REGISTER, IRQ_STATUS], 4))
  {
    var irq, u := GetIrqStatus(chip, t);
    var frame, v := FetchFrame(chip, u, irq);
    var e := AdvanceSlot(chip, v);
    AnsweredJoin(chip, u, v, |t|);
    AnsweredJoin(chip, v, e, |t|);
    GrowsTrans(u, v, e);
    GrowsTrans(t, u, e);
    PrefixIndex(u, e, |t|);
    SliceOfExtension(v, e, |u|, |v|);
    var seg := e[|t|..];
    assert v[|u|..|v|] == v[|u|..];
    assert seg[1..|seg| - 5] == e[|u|..|v|] == v[|u|..];
    assert seg[|seg| - 5..] == e[|v|..];
    assert SlotSegment(seg, irq, frame);
    assert e[|t|..|e|] == seg;
    rec, t' := SlotRecord(|t|, |e|, irq, frame), e;
  }

  // ---------------------------------------------------------------------------
  // The slot loop and the inventory

  /** Every record of `rs` describes a slot of `tr`. */
  predicate AllOnWire(tr: Trace, rs: seq<SlotRecord>)
  {
    forall j {:trigger SlotOnWire(tr, rs[j])} | 0 <= j < |rs| :: SlotOnWire(tr, rs[j])
  }

  /** Slots already on the wire stay there when the trace grows. */
  lemma AllOnWireExtends(tr: Trace, tr': Trace, rs: seq<SlotRecord>)
    requires AllOnWire(tr, rs) && Grows(tr, tr')
    ensures AllOnWire(tr', rs)
  {
    forall j | 0 <= j < |rs|
      ensures SlotOnWire(tr', rs[j])
    {
      assert SlotOnWire(tr, rs[j]);
      SliceOfExtension(tr, tr', rs[j].start, rs[j].stop);
    }
  }

  /** The response frames of the slots that had one, in slot order (`uid_buffer`). */
  function Collect(rs: seq<SlotRecord>): (uids: seq<RxData>)
    ensures |uids| <= |rs|
    ensures |uids| == 0 <==> forall j | 0 <= j < |rs| :: rs[j].frame.None?
  {
    if |rs| == 0 then []
    else
      var prev := Collect(rs[..|rs| - 1]);
      var last := rs[|rs| - 1];
      assert forall j | 0 <= j < |rs| - 1 :: rs[..|rs| - 1][j] == rs[j];
      if last.frame.Some? then prev + [last.frame.value] else prev
  }

  /** The IRQ clear and the Inventory request that follow `setup_RF` (lines 346-347). */
  predicate RequestSegment(seg: seq<Transaction>)
  {
    && |seg| >= 1
    && IsRegisterWrite(seg[0], RegisterCommand(WRITE_REGISTER, IRQ_CLEAR, IRQ_CLEAR_MASK))
    && SendDataSegment(seg[1..], InventoryRequest(), 0)
  }

  /**
   Everything before the slot loop: `setup_RF`'s traffic and then the request's, whichever of
   the two lengths `send_data` produced (4 exchanges when the request was not sent, 5 when it was).
   */
  predicate StartSegment(seg: seq<Transaction>)
  {
    || (|seg| >= 12 && SetupSegment(seg[..|seg| - 4]) && RequestSegment(seg[|seg| - 4..]))
    || (|seg| >= 13 && SetupSegment(seg[..|seg| - 5]) && RequestSegment(seg[|seg| - 5..]))
  }

  /**
   Lines 345-347: `setup_RF`, an IRQ clear and the Inventory request, none of whose results the
   driver checks. `false` only when RF-on is never confirmed within `fuel` reads.
   */
  method StartInventory(chip: Chip, t: Trace, fuel: nat) returns (started: bool, t': Trace)
    ensures Grows(t, t') && AnsweredFrom(chip, t', |t|)
    ensures started ==> StartSegment(t'[|t|..])
    ensures !started ==> SetupUnconfirmed(t'[|t|..], fuel)
  {
    var setup, u := SetupRf(chip, t, fuel);
    if setup.None? {
      return false, u;
    }
    var _, c := ClearIrqStatus(chip, u, IRQ_CLEAR_MASK);
    var _, s := SendData(chip, c, InventoryRequest(), 0);
    AnsweredJoin(chip, u, c, |t|);
    AnsweredJoin(chip, c, s, |t|);
    RequestOnWire(u, c, s);
    StartOnWire(t, u, s);
    started, t' := true, s;
  }

  /** The IRQ clear at the end of `u` and the request traffic after it form a `RequestSegment`. */
  lemma RequestOnWire(u: Trace, c: Trace, s: Trace)
    requires Extends(u, c, 1)
    requires IsRegisterWrite(c[|u|], RegisterCommand(WRITE_REGISTER, IRQ_CLEAR, IRQ_CLEAR_MASK))
    requires Grows(c, s) && SendDataSegment(s[|c|..], InventoryRequest(), 0)
    ensures Grows(u, s) && RequestSegment(s[|u|..])
  {
    GrowsTrans(u, c, s);
    PrefixIndex(c, s, |u|);
    assert s[|u|..][1..] == s[|c|..];
  }

  /** Set-up traffic followed by request traffic forms a `StartSegment`. */
  lemma StartOnWire(t: Trace, u: Trace, s: Trace)
    requires Grows(t, u) && SetupSegment(u[|t|..])
    requires Grows(u, s) && RequestSegment(s[|u|..])
    ensures Grows(t, s) && StartSegment(s[|t|..])
  {
    GrowsTrans(t, u, s);
    SliceOfExtension(u, s, |t|, |u|);
    assert |s[|u|..]| == 4 || |s[|u|..]| == 5;
    var head := s[|t|..];
    assert head[..|u| - |t|] == s[|t|..|u|] == u[|t|..];
    assert head[|u| - |t|..] == s[|u|..];
  }

  /** What `get_inventory_16_slots` returns: `(code, uid_counter, uid_buffer)`. */
  datatype Inventory = Inventory(code: int, count: nat, uids: seq<RxData>)

  /** A slot record collected a frame exactly when its IRQ word had RX_SOF_DET. */
  lemma FrameIffSof(tr: Trace, slots: seq<SlotRecord>)
    requires AllOnWire(tr, slots)
    ensures forall j | 0 <= j < |slots| ::
      slots[j].frame.Some? <==> HasFlag(slots[j].irq, RX_SOF_DET_IRQ_STAT)
  {
    forall j | 0 <= j < |slots|
      ensures slots[j].frame.Some? <==> HasFlag(slots[j].irq, RX_SOF_DET_IRQ_STAT)
    {
      assert SlotOnWire(tr, slots[j]);
    }
  }

  /**
   On a trace the chip produced, a slot's IRQ word is the chip's answer to the IRQ_STATUS read
   after the history before the slot, and the slot collects a frame exactly when bit 6 of the
   second byte of that answer (RX_SOF_DET) is set.
   */
  lemma SlotAnswered(chip: Chip, tr: Trace, k: nat, rec: SlotRecord)
    requires AnsweredFrom(chip, tr, k) && k <= rec.start && SlotOnWire(tr, rec)
    ensures rec.irq == FromLE(Answer(chip, tr[..rec.start], [READ_REGISTER, IRQ_STATUS], 4))
    ensures rec.frame.Some? <==>
      HasFlag(FromLE(Answer(chip, tr[..rec.start], [READ_REGISTER, IRQ_STATUS], 4)), RX_SOF_DET_IRQ_STAT)
  {
    var seg := tr[rec.start..rec.stop];
    assert seg[0] == tr[rec.start];
    AnsweredAt(chip, tr, k, rec.start);
  }

  /** Some slot's IRQ_STATUS word had RX_SOF_DET. */
  predicate SofSeen(slots: seq<SlotRecord>)
  {
    exists j | 0 <= j < |slots| :: HasFlag(slots[j].irq, RX_SOF_DET_IRQ_STAT)
  }

  /** Some frame was collected exactly when some slot's IRQ word had RX_SOF_DET. */
  lemma CollectedIffSof(tr: Trace, slots: seq<SlotRecord>)
    requires AllOnWire(tr, slots)
    ensures |Collect(slots)| > 0 <==> SofSeen(slots)
  {
    FrameIffSof(tr, slots);
    if |Collect(slots)| > 0 {
      var j :| 0 <= j < |slots| && slots[j].frame.Some?;
      assert HasFlag(slots[j].irq, RX_SOF_DET_IRQ_STAT);
    }
  }

  lemma AllOnWireAppend(tr: Trace, rs: seq<SlotRecord>, rec: SlotRecord)
    requires AllOnWire(tr, rs) && SlotOnWire(tr, rec)
    ensures AllOnWire(tr, rs + [rec])
  {
    assert forall j | 0 <= j < |rs| :: (rs + [rec])[j] == rs[j];
  }

  /** Collecting one more slot appends its frame, if it had one. */
  lemma CollectAppend(rs: seq<SlotRecord>, rec: SlotRecord)
    ensures Collect(rs + [rec]) ==
      Collect(rs) + (if rec.frame.Some? then [rec.frame.value] else [])
  {
    assert (rs + [rec])[..|rs|] == rs;
  }

  /** Slots laid back to back from trace position `start`, the last ending at `stop`. */
  predicate Contiguous(slots: seq<SlotRecord>, start: nat, stop: nat)
  {
    && (|slots| == 0 ==> start == stop)
    && (|slots| > 0 ==> slots[0].start == start && slots[|slots| - 1].stop == stop)
    && (forall j | 0 < j < |slots| :: slots[j - 1].stop == slots[j].start)
  }

  lemma ContiguousAppend(rs: seq<SlotRecord>, rec: SlotRecord, start: nat)
    requires Contiguous(rs, start, rec.start)
    ensures Contiguous(rs + [rec], start, rec.stop)
  {
    assert forall j | 0 <= j < |rs| :: (rs + [rec])[j] == rs[j];
  }

  /**
   Lines 350-364: the 16 slots, collecting `uid_buffer` and counting `uid_counter` as it goes.
   */
  method SlotLoop(chip: Chip, s: Trace)
    returns (slots: seq<SlotRecord>, uidBuffer: seq<RxData>, uidCounter: nat, t': Trace)
    ensures Grows(s, t') && AnsweredFrom(chip, t', |s|)
    ensures |slots| == SLOT_COUNT && Contiguous(slots, |s|, |t'|)
    ensures AllOnWire(t', slots)
    ensures uidBuffer == Collect(slots) && uidCounter == |uidBuffer|
  {
    t' := s;
    slots := [];
    uidBuffer := [];
    uidCounter := 0;
    for i := 0 to SLOT_COUNT
      invariant |slots| == i && Grows(s, t') && AnsweredFrom(chip, t', |s|)
      invariant Contiguous(slots, |s|, |t'|)
      invariant AllOnWire(t', slots)
      invariant uidBuffer == Collect(slots)
      invariant uidCounter == |uidBuffer|
    {
      var rec, next := RunSlot(chip, t');
      AllOnWireExtends(t', next, slots);
      AllOnWireAppend(next, slots, rec);
      ContiguousAppend(slots, rec, |s|);
      CollectAppend(slots, rec);
      GrowsTrans(s, t', next);
      AnsweredJoin(chip, t', next, |s|);
      if rec.frame.Some? {
        uidBuffer := uidBuffer + [rec.frame.value];
        uidCounter := uidCounter + 1;
      }
      slots, t' := slots + [rec], next;
    }
  }

  /**
   `get_inventory_16_slots`. After the start phase it runs exactly 16 slots, returned in `slots`,
   back to back. The counter always equals the number of collected frames, and the result is
   EC_OK exactly when some slot saw RX_SOF_DET, else EC_NO_CARD. `None` when RF-on is never
   confirmed within `fuel` reads.
   */
  method GetInventory16Slots(chip: Chip, t: Trace, fuel: nat)
    returns (r: Option<Inventory>, t': Trace, slots: seq<SlotRecord>)
    ensures Grows(t, t') && AnsweredFrom(chip, t', |t|)
    ensures r.None? ==> slots == [] && SetupUnconfirmed(t'[|t|..], fuel)
    ensures r.Some? ==> |slots| == SLOT_COUNT && |t| <= slots[0].start <= |t'|
    ensures r.Some? ==> StartSegment(t'[|t|..slots[0].start])
    ensures r.Some? ==> Contiguous(slots, slots[0].start, |t'|) && AllOnWire(t', slots)
    ensures r.Some? ==> r.value.uids == Collect(slots) && r.value.count == |r.value.uids| <= SLOT_COUNT
    ensures r.Some? ==> (r.value.code == EC_OK <==> r.value.count > 0)
    ensures r.Some? ==> (r.value.code == EC_OK <==> SofSeen(slots))
    ensures r.Some? ==> (r.value.code == EC_NO_CARD <==> !SofSeen(slots))
  {
    var started, s := StartInventory(chip, t, fuel);
    if !started {
      return None, s, [];
    }
    var uidBuffer, uidCounter, trace;
    slots, uidBuffer, uidCounter, trace := SlotLoop(chip, s);
    CollectedIffSof(trace, slots);
    AnsweredJoin(chip, s, trace, |t|);
    GrowsTrans(t, s, trace);
    SliceOfExtension(s, trace, |t|, |s|);
    var code := if |uidBuffer| > 0 && uidCounter > 0 then EC_OK else EC_NO_CARD;
    r, t' := Some(Inventory(code, uidCounter, uidBuffer)), trace;
  }
}
