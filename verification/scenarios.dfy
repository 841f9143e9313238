/**
 Two concrete chips, and what `get_inventory_16_slots` returns when run against them. Both
 raise TX_RFON on every IRQ_STATUS read, report WaitTransmit in RF_STATUS and announce a
 10-byte response in RX_STATUS. They differ only in RX_SOF_DET: `NoTag` never raises it, and
 `TagInSlot5` raises it only for the IRQ_STATUS read of the sixth slot (five EOFs sent so far).
 The outcomes below follow from the contracts of the driver's operations alone.
 */
module Scenarios {
  import opened Wrappers
  import opened Bytes
  import opened Bus
  import opened Pn5180
  import opened Iso15693

  /** An Inventory response: flags, DSFID, then a 64-bit UID least significant byte first. */
  const TAG_RESPONSE: seq<byte> := [0x00, 0x00, 0x01, 0x02, 0x03, 0x04, 0x05, 0x06, 0x07, 0xE0]

  /** Byte `i` of the answer to `tx` of a reader whose IRQ_STATUS carries RX_SOF_DET when `sof`. */
  function Reader(tx: seq<byte>, i: nat, sof: bool): byte
  {
    if tx == [READ_REGISTER, IRQ_STATUS] then
      (if i != 1 then 0x00 else if sof then 0x42 else 0x02)
    else if tx == [READ_REGISTER, RF_STATUS] then
      (if i == 3 then 0x01 else 0x00)
    else if tx == [READ_REGISTER, RX_STATUS] then
      (if i == 0 then 10 else 0x00)
    else if tx == READ_DATA_FRAME && i < |TAG_RESPONSE| then TAG_RESPONSE[i]
    else 0x00
  }

  /** The number of EOF frames in a bus history: the slots already closed. */
  function EofCount(h: Trace): nat
  {
    if |h| == 0 then 0
    else EofCount(h[..|h| - 1]) + (if h[|h| - 1].tx == EOF_FRAME then 1 else 0)
  }

  /** A field with no tag in it. */
  function NoTag(h: Trace, tx: seq<byte>, i: nat): byte
  {
    Reader(tx, i, false)
  }

  /** A field with one tag that answers in the sixth slot (slot index 5). */
  function TagInSlot5(h: Trace, tx: seq<byte>, i: nat): byte
  {
    Reader(tx, i, EofCount(h) == 5)
  }

  /** Every IRQ_STATUS word `chip` answers has TX_RFON set. */
  ghost predicate RaisesRfOn(chip: Chip)
  {
    forall h: Trace :: HasFlag(FromLE(Answer(chip, h, [READ_REGISTER, IRQ_STATUS], 4)), TX_RFON_IRQ_STAT)
  }

  lemma NoTagIrq(h: Trace)
    ensures Answer(NoTag, h, [READ_REGISTER, IRQ_STATUS], 4) == [0x00, 0x02, 0x00, 0x00]
    ensures FromLE(Answer(NoTag, h, [READ_REGISTER, IRQ_STATUS], 4)) == 0x200
  {
    FromLE4([0x00, 0x02, 0x00, 0x00]);
  }

  lemma TagIrq(h: Trace)
    ensures Answer(TagInSlot5, h, [READ_REGISTER, IRQ_STATUS], 4) ==
      [0x00, if EofCount(h) == 5 then 0x42 else 0x02, 0x00, 0x00]
    ensures FromLE(Answer(TagInSlot5, h, [READ_REGISTER, IRQ_STATUS], 4)) ==
      if EofCount(h) == 5 then 0x4200 else 0x200
  {
    FromLE4([0x00, 0x42, 0x00, 0x00]);
    FromLE4([0x00, 0x02, 0x00, 0x00]);
  }

  /** With a chip that raises TX_RFON, one IRQ_STATUS read is enough to confirm RF-on. */
  lemma SetupConfirmed(chip: Chip, tr: Trace, fuel: nat)
    requires RaisesRfOn(chip) && Answered(chip, tr) && fuel >= 1
    ensures !SetupUnconfirmed(tr, fuel)
  {
    if |tr| > 4 && IsRegisterRead(tr[4], IRQ_STATUS) {
      assert tr[4..][0] == tr[4];
      AnsweredAt(chip, tr, 0, 4);
      assert HasFlag(IrqWord(tr[4]), TX_RFON_IRQ_STAT);
    }
  }

  /**
   `get_inventory_16_slots` with no tag in the field: all 16 slots stay silent, and the result
   is EC_NO_CARD with an empty buffer.
   */
  method InventoryNoTag(fuel: nat) returns (inv: Inventory)
    requires fuel >= 1
    ensures inv == Inventory(EC_NO_CARD, 0, [])
  {
    var r, t', slots := GetInventory16Slots(NoTag, [], fuel);
    assert t'[0..] == t';
    forall h: Trace
      ensures HasFlag(FromLE(Answer(NoTag, h, [READ_REGISTER, IRQ_STATUS], 4)), TX_RFON_IRQ_STAT)
    {
      NoTagIrq(h);
    }
    SetupConfirmed(NoTag, t', fuel);
    SilentSlots(t', slots);
    CollectedIffSof(t', slots);
    inv := r.value;
  }

  /** Against the tagless chip, no slot of an answered trace collects a frame. */
  lemma SilentSlots(tr: Trace, slots: seq<SlotRecord>)
    requires Answered(NoTag, tr) && AllOnWire(tr, slots)
    ensures forall j | 0 <= j < |slots| :: slots[j].frame.None?
  {
    forall j | 0 <= j < |slots|
      ensures slots[j].frame.None?
    {
      assert SlotOnWire(tr, slots[j]);
      SlotAnswered(NoTag, tr, 0, slots[j]);
      NoTagIrq(tr[..slots[j].start]);
    }
  }

  // ---------------------------------------------------------------------------
  // Counting closed slots

  lemma {:induction false} EofCountAppend(a: Trace, b: Trace)
    ensures EofCount(a + b) == EofCount(a) + EofCount(b)
    decreases |b|
  {
    if |b| == 0 {
      assert a + b == a;
    } else {
      var b' := b[..|b| - 1];
      assert (a + b)[..|a + b| - 1] == a + b';
      EofCountAppend(a, b');
    }
  }

  lemma {:induction false} EofCountNone(s: Trace)
    requires forall i | 0 <= i < |s| :: s[i].tx != EOF_FRAME
    ensures EofCount(s) == 0
    decreases |s|
  {
    if |s| > 0 {
      EofCountNone(s[..|s| - 1]);
    }
  }

  /** A register write carries six bytes and a register read starts with 0x04: neither is an EOF. */
  lemma NotEof(e: Transaction)
    requires (exists c :: IsRegisterWrite(e, c)) || (exists reg :: IsRegisterRead(e, reg))
    ensures e.tx != EOF_FRAME
  {
    if exists reg :: IsRegisterRead(e, reg) {
      var reg :| IsRegisterRead(e, reg);
      assert e.tx[0] != EOF_FRAME[0];
    }
  }

  /** `setup_RF` sends no EOF frame. */
  lemma SetupNoEof(seg: seq<Transaction>)
    requires SetupSegment(seg)
    ensures forall i | 0 <= i < |seg| :: seg[i].tx != EOF_FRAME
  {
    forall i | 0 <= i < |seg|
      ensures seg[i].tx != EOF_FRAME
    {
      if i < 4 {
        assert seg[i].tx[0] != EOF_FRAME[0];
      } else if i < |seg| - 3 {
        var p := seg[4..|seg| - 3];
        assert p[i - 4] == seg[i];
        NotEof(seg[i]);
      } else {
        NotEof(seg[i]);
      }
    }
  }

  /** The IRQ clear and the request traffic send no EOF frame. */
  lemma RequestNoEof(seg: seq<Transaction>)
    requires RequestSegment(seg)
    ensures forall i | 0 <= i < |seg| :: seg[i].tx != EOF_FRAME
  {
    forall i | 0 <= i < |seg|
      ensures seg[i].tx != EOF_FRAME
    {
      if i == 4 {
        assert |seg[i].tx| == 5;
      } else if i > 0 {
        assert seg[1..][i - 1] == seg[i];
        NotEof(seg[i]);
      } else {
        NotEof(seg[i]);
      }
    }
  }

  lemma StartNoEof(seg: seq<Transaction>)
    requires StartSegment(seg)
    ensures EofCount(seg) == 0
  {
    var l := if |seg| >= 12 && SetupSegment(seg[..|seg| - 4]) && RequestSegment(seg[|seg| - 4..])
      then |seg| - 4 else |seg| - 5;
    SetupNoEof(seg[..l]);
    RequestNoEof(seg[l..]);
    forall i | 0 <= i < |seg|
      ensures seg[i].tx != EOF_FRAME
    {
      if i < l {
        assert seg[..l][i] == seg[i];
      } else {
        assert seg[l..][i - l] == seg[i];
      }
    }
    EofCountNone(seg);
  }

  /** Every slot ends with exactly one EOF frame and sends no other. */
  lemma SlotOneEof(seg: seq<Transaction>, irq: nat, frame: Option<RxData>)
    requires SlotSegment(seg, irq, frame)
    ensures EofCount(seg) == 1
  {
    var body := seg[..|seg| - 1];
    forall i | 0 <= i < |body|
      ensures body[i].tx != EOF_FRAME
    {
      if i == 0 {
        NotEof(seg[0]);
      } else if i < |seg| - 5 {
        var f := seg[1..|seg| - 5];
        assert f[i - 1] == seg[i];
        if i == 1 {
          NotEof(seg[i]);
        } else {
          assert seg[i].tx[0] != EOF_FRAME[0];
        }
      } else {
        assert seg[|seg| - 5..][i - (|seg| - 5)] == seg[i];
        NotEof(seg[i]);
      }
    }
    EofCountNone(body);
    assert seg[|seg| - 5..][4] == seg[|seg| - 1];
  }

  /** Every slot of `slots` lies within `tr` and sends exactly one EOF frame. */
  predicate EachOneEof(tr: Trace, slots: seq<SlotRecord>)
  {
    forall j | 0 <= j < |slots| ::
      slots[j].start <= slots[j].stop <= |tr| && EofCount(tr[slots[j].start..slots[j].stop]) == 1
  }

  lemma AllSlotsOneEof(tr: Trace, slots: seq<SlotRecord>)
    requires AllOnWire(tr, slots)
    ensures EachOneEof(tr, slots)
  {
    forall j | 0 <= j < |slots|
      ensures slots[j].start <= slots[j].stop <= |tr| && EofCount(tr[slots[j].start..slots[j].stop]) == 1
    {
      var a := slots[j];
      assert SlotOnWire(tr, a);
      SlotOneEof(tr[a.start..a.stop], a.irq, a.frame);
    }
  }

  /** Before slot `j`'s IRQ_STATUS read, exactly `j` EOF frames are on a bus that started empty. */
  lemma {:induction false} SlotPosition(tr: Trace, slots: seq<SlotRecord>, stop: nat, j: nat)
    requires |slots| > 0 && slots[0].start <= |tr| && EofCount(tr[..slots[0].start]) == 0
    requires Contiguous(slots, slots[0].start, stop) && EachOneEof(tr, slots) && j < |slots|
    ensures slots[j].start <= |tr| && EofCount(tr[..slots[j].start]) == j
  {
    if j > 0 {
      SlotPosition(tr, slots, stop, j - 1);
      var a := slots[j - 1];
      assert a.start <= a.stop <= |tr|;
      assert tr[..a.stop] == tr[..a.start] + tr[a.start..a.stop];
      EofCountAppend(tr[..a.start], tr[a.start..a.stop]);
    }
  }

  /** The tag's reader announces a 10-byte response in RX_STATUS. */
  lemma TagRxStatus(h: Trace)
    ensures Answer(TagInSlot5, h, [READ_REGISTER, RX_STATUS], 4) == [10, 0x00, 0x00, 0x00]
  {
    var a := Answer(TagInSlot5, h, [READ_REGISTER, RX_STATUS], 4);
    assert [READ_REGISTER, RX_STATUS] != [READ_REGISTER, IRQ_STATUS];
    assert [READ_REGISTER, RX_STATUS] != [READ_REGISTER, RF_STATUS];
    assert a == [10, 0x00, 0x00, 0x00];
  }

  /** READ_DATA of 10 bytes returns the tag's response. */
  lemma TagReadData(h: Trace)
    ensures Answer(TagInSlot5, h, READ_DATA_FRAME, 10) == TAG_RESPONSE
  {
    assert READ_DATA_FRAME[0] == 0x0A;
    assert READ_DATA_FRAME != [READ_REGISTER, IRQ_STATUS];
    assert READ_DATA_FRAME != [READ_REGISTER, RF_STATUS];
    assert READ_DATA_FRAME != [READ_REGISTER, RX_STATUS];
  }

  /** After an RX_STATUS answer announcing 10 bytes, exactly 10 bytes are fetched and collected. */
  lemma FetchTen(f: seq<Transaction>, irq: nat, frame: Option<RxData>)
    requires FrameFetch(f, irq, frame) && frame.Some? && f[0].rx == [10, 0x00, 0x00, 0x00]
    ensures |f| == 2 && IsRead(f[1], READ_DATA_FRAME, 10) && frame.value == Data(f[1].rx)
  {
    RxNumBytesOfBytes(f[0].rx);
  }

  /** Whatever slot collects a frame under `TagInSlot5` collects `TAG_RESPONSE`. */
  lemma TagFrame(tr: Trace, rec: SlotRecord)
    requires Answered(TagInSlot5, tr) && SlotOnWire(tr, rec) && rec.frame.Some?
    ensures rec.frame.value == Data(TAG_RESPONSE)
  {
    var seg := tr[rec.start..rec.stop];
    var f := seg[1..|seg| - 5];
    assert FrameFetch(f, rec.irq, rec.frame);
    assert f[0] == tr[rec.start + 1];
    AnsweredAt(TagInSlot5, tr, 0, rec.start + 1);
    TagRxStatus(tr[..rec.start + 1]);
    FetchTen(f, rec.irq, rec.frame);
    assert |seg| == 8 && rec.start + 8 == rec.stop <= |tr|;
    assert seg[2] == tr[rec.start + 2];
    assert f[1] == seg[2];
    AnsweredAt(TagInSlot5, tr, 0, rec.start + 2);
    TagReadData(tr[..rec.start + 2]);
  }

  /** Under `TagInSlot5`, on a bus that held no EOF before the slots, only slot 5 collects a frame. */
  lemma TagSlots(tr: Trace, slots: seq<SlotRecord>, stop: nat)
    requires Answered(TagInSlot5, tr) && |slots| > 0
    requires slots[0].start <= |tr| && EofCount(tr[..slots[0].start]) == 0
    requires Contiguous(slots, slots[0].start, stop) && AllOnWire(tr, slots)
    ensures forall j | 0 <= j < |slots| :: slots[j].frame.Some? <==> j == 5
  {
    AllSlotsOneEof(tr, slots);
    forall j | 0 <= j < |slots|
      ensures slots[j].frame.Some? <==> j == 5
    {
      assert SlotOnWire(tr, slots[j]);
      SlotPosition(tr, slots, stop, j);
      SlotAnswered(TagInSlot5, tr, 0, slots[j]);
      TagIrq(tr[..slots[j].start]);
    }
  }

  /** Collecting slots of which only slot `k` has a frame gives just that frame. */
  lemma {:induction false} CollectSingle(rs: seq<SlotRecord>, k: nat)
    requires k < |rs| && forall j | 0 <= j < |rs| :: rs[j].frame.Some? <==> j == k
    ensures Collect(rs) == [rs[k].frame.value]
    decreases |rs|
  {
    var prev := rs[..|rs| - 1];
    if k < |rs| - 1 {
      CollectSingle(prev, k);
    } else {
      assert forall j | 0 <= j < |prev| :: prev[j].frame.None?;
    }
  }

  /**
   `get_inventory_16_slots` with one tag answering in slot 5: exactly that slot collects a
   frame, the tag's response, and the result is EC_OK with a count of one.
   */
  method InventoryTagInSlot5(fuel: nat) returns (inv: Inventory, slots: seq<SlotRecord>)
    requires fuel >= 1
    ensures |slots| == SLOT_COUNT
    ensures forall j | 0 <= j < |slots| :: slots[j].frame.Some? <==> j == 5
    ensures inv == Inventory(EC_OK, 1, [Data(TAG_RESPONSE)])
  {
    var r, t';
    r, t', slots := GetInventory16Slots(TagInSlot5, [], fuel);
    assert t'[0..] == t';
    forall h: Trace
      ensures HasFlag(FromLE(Answer(TagInSlot5, h, [READ_REGISTER, IRQ_STATUS], 4)), TX_RFON_IRQ_STAT)
    {
      TagIrq(h);
    }
    SetupConfirmed(TagInSlot5, t', fuel);
    assert t'[..slots[0].start] == t'[0..slots[0].start];
    StartNoEof(t'[..slots[0].start]);
    TagSlots(t', slots, |t'|);
    assert SlotOnWire(t', slots[5]);
    TagFrame(t', slots[5]);
    CollectSingle(slots, 5);
    inv := r.value;
  }
}
