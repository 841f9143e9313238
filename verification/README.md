# PN5180 / ISO 15693 inventory — a Dafny model

This project models the NFC reader driver of an ESP32 multi-reader board: the NXP PN5180
host-interface command layer (class `PN5180`) and the ISO/IEC 15693 16-slot Inventory with
anticollision (class `ISO15693`), both in `NFC/__init__.py`.

The chip is a **chip oracle**, `Chip = (Trace, seq<byte>, nat) -> byte`. It gives the i-th
byte the PN5180 answers, given all earlier bus traffic and the frame just written. The SPI bus
is an appended **trace** of `Transaction(tx, rxLen, rx)` entries, one per call of
`__transceive_cmds`. Each driver operation is a method that takes the oracle and the trace so
far. It returns the Python return value and the trace it leaves behind. Its contract says which
entries it appends, and leaves every earlier entry unchanged.

Every contract also ties what comes back to the chip. Every operation ensures
`AnsweredFrom(chip, t', |t|)`: each exchange it appended holds what the chip answers to that
frame after the history before it. The reads state their result as the chip's answer
(`Answer(chip, t, frame, n)`) directly. `Bus.AnsweredJoin` chains these facts, so a whole run
from an empty bus is `Answered(chip, t')`. Every byte the driver branches on is then the
chip's. The `Scenarios` module runs the inventory against two concrete chips and derives the
outcome from the contracts alone.

Modules:

- `Wrappers`: `Option`.
- `Bytes`: `byte`, `u32`, little-endian encoding and decoding with its round trip, and
  single-bit flags.
- `Bus`: transactions, the trace, the oracle and `__transceive_cmds`. Its write-only branch
  returns `0`, modelled as `RxData.NoData`.
- `Pn5180`: constants, register frames and their decoder, transceiver-state decoding, and every
  command of the driver.
- `Iso15693`: `setup_RF`, one anticollision slot, the 16-slot loop and
  `get_inventory_16_slots`.
- `Scenarios`: two concrete chips, one with no tag in the field and one with a tag answering
  in slot 5, and the inventory results they force.

The inventory's contract describes its whole bus conversation:
- the start phase comes first: set-up, IRQ clear and the request `[0x06, 0x01, 0x00]`;
- then exactly 16 slots follow, back to back, and each slot's record says where it lies in
  the trace;
- a frame is collected in a slot exactly when RX_SOF_DET (bit 14) is set in that slot's
  IRQ_STATUS word;
- `uid_buffer` lists those frames in slot order, and `uid_counter` is its length;
- the result is EC_OK exactly when some slot saw RX_SOF_DET, and EC_NO_CARD otherwise.

The two unbounded `while … : pass` polling loops (`reset`, `set_RF_on`) take a `fuel` bound.
When the fuel runs out, the contract describes the unanswered reads, where the driver would
still be polling.

## Model

| member | source | states |
|---|---|---|
| Bytes.FromLE | NFC/__init__.py:107 | `int.from_bytes(b, 'little')` of `n` bytes is below 256^n |
| Bytes.HasFlag | NFC/__init__.py:352 | `x & flag != 0` for a single-bit flag: a set flag never exceeds the word it is set in |
| Bytes.LE4 | NFC/__init__.py:142 | `value.to_bytes(4, 'little')` has 4 bytes that decode little-endian back to `value` |
| Bytes.ToLE | NFC/__init__.py:142 | `v.to_bytes(n, 'little')` for `v < 256^n` has `n` bytes that decode back to `v` |
| Bytes.ToLEFromLE | NFC/__init__.py:107 | re-encoding the little-endian value of any byte string at its own length gives the string back: the other half of the round trip |
| Bytes.FromLE4 | NFC/__init__.py:107 | `int.from_bytes(b, 'little')` of 4 bytes is the weighted sum of b[0..3] |
| Bus.RxOf | NFC/__init__.py:308-325 | what `__transceive_cmds` hands back: 0 exactly when no read was asked for, else the bytes read |
| Bus.Transceive | NFC/__init__.py:287-325 | appends exactly one exchange, answered by the chip; with `rx_data_len` 0 it is a pure write and returns 0, otherwise exactly the `rx_data_len` bytes the chip answers to the frame after the history so far are returned |
| Bus.AnsweredJoin | NFC/__init__.py:287-325 | exchanges answered by the chip in a trace and then in its extension make one run of answered exchanges |
| Bus.AnsweredAt | NFC/__init__.py:287-325 | every exchange of an answered stretch holds the chip's answer to its frame after the history before it |
| Pn5180.TransceiveState.Code | NFC/__init__.py:68-76 | each transceiver state has a code below 8 |
| Pn5180.StateOfCode | NFC/__init__.py:68-76 | each code 0..7 names the state with that code |
| Pn5180.StateCodeRoundTrip | NFC/__init__.py:68-76 | code of a state and state of a code are mutually inverse |
| Pn5180.TransceiveStateField | NFC/__init__.py:282 | `(rf_status >> 24) & 0x07` is a transceiver state code below 8 |
| Pn5180.RxNumBytes | NFC/__init__.py:354 | `rx_status & 0x1ff` is a receive length below 512 |
| Pn5180.TransceiveStateFieldOfBytes | NFC/__init__.py:282 | `(LE(rf) >> 24) & 7` of four bytes is the low three bits of the last byte |
| Pn5180.RxNumBytesOfBytes | NFC/__init__.py:354 | `LE(rx_status) & 0x1ff` is byte 0 plus 256 times bit 0 of byte 1, and never exceeds 511 |
| Pn5180.SofFlagOfBytes | NFC/__init__.py:352 | bit 14 (RX_SOF_DET) of a little-endian word is set exactly when bit 6 of its second byte is |
| Pn5180.StateOf | NFC/__init__.py:264-284 | the state `get_transceive_state` reports: Idle when the read failed, else the state coded in bits 26:24 of RF_STATUS |
| Pn5180.RegisterFrame | NFC/__init__.py:141-142 | a register frame (also the OR-mask and AND-mask frames of lines 150-151 and 159-160) is 6 bytes: opcode, register, then a little-endian value that decodes back to the value |
| Pn5180.DecodeRegisterFrame | NFC/__init__.py:141-142 | a byte string parses as a register command exactly when it has 6 bytes; opcode and register are its first two bytes |
| Pn5180.RegisterFrameRoundTrip | NFC/__init__.py:141-142 | decoding a built register frame gives back opcode, register and value |
| Pn5180.DecodeRegisterFrameInverse | NFC/__init__.py:141-142 | every 6-byte string is the frame of the command it decodes to |
| Pn5180.RegisterWriteFrame | NFC/__init__.py:141-144 | a register write on the wire carries exactly `[opcode, reg] ++ LE4(value)` |
| Pn5180.IrqWord | NFC/__init__.py:106-107 | the decoded IRQ_STATUS word of a 4-byte read is below 2^32 |
| Pn5180.RegisterWrite | NFC/__init__.py:141-145 | one write-only exchange carrying the register command; returns True |
| Pn5180.WriteRegister | NFC/__init__.py:136-145 | one write-only exchange carrying `[0x00, reg] ++ LE4(value)`; returns True |
| Pn5180.WriteRegisterOrMask | NFC/__init__.py:148-154 | the same with opcode 0x01 and the OR mask |
| Pn5180.WriteRegisterAndMask | NFC/__init__.py:157-163 | the same with opcode 0x02 and the AND mask |
| Pn5180.ReadRegister | NFC/__init__.py:166-171 | one exchange writing `[0x04, reg]` and reading 4 bytes; the chip's answer to that frame is returned with True |
| Pn5180.GetIrqStatus | NFC/__init__.py:104-109 | one IRQ_STATUS read; returns the little-endian value of the chip's 4-byte answer, below 2^32 |
| Pn5180.ClearIrqStatus | NFC/__init__.py:111-113 | one WRITE_REGISTER of the mask to IRQ_CLEAR (0x03) |
| Pn5180.GetTransceiveState | NFC/__init__.py:264-284 | one RF_STATUS read; the state returned has code `(LE(rf_status) >> 24) & 7` of the chip's answer, read off its byte 3 |
| Pn5180.ReadEeprom | NFC/__init__.py:174-184 | address above 254: False and no traffic; otherwise one exchange `[0x07, addr, n]`, returning with True the chip's `n`-byte answer, or 0 when `n` is 0 |
| Pn5180.SendData | NFC/__init__.py:187-212 | over 260 bytes: False and no traffic; otherwise AND-mask SYSTEM_CONFIG 0xfffffff8, OR-mask 0x3, RF_STATUS read, then `[0x09, vb] ++ data` is sent if and only if the chip's RF_STATUS answer codes WaitTransmit, which is exactly when True is returned |
| Pn5180.ReadData | NFC/__init__.py:215-224 | over 508 bytes: 0 and no traffic; otherwise one exchange `[0x0A, 0x00]` returning the chip's `length`-byte answer, or 0 when `length` is 0 |
| Pn5180.LoadRfConfig | NFC/__init__.py:227-231 | one write-only exchange `[0x11, tx_conf, rx_conf]`; returns True |
| Pn5180.SendEof | NFC/__init__.py:253-257 | one write-only exchange `[0x09, 0x00]`; returns True |
| Pn5180.SetRfOff | NFC/__init__.py:243-251 | `[0x17, 0x00]`, then IRQ_CLEAR of TX_RFOFF; no wait for the field to drop |
| Pn5180.PollIrq | NFC/__init__.py:239 | the polling loop of `set_RF_on` (and of `reset`, line 100) for a single-bit flag: chip-answered IRQ_STATUS reads that stop at the first word carrying the flag; if the flag never comes within the fuel, that many reads without it |
| Pn5180.Reset | NFC/__init__.py:93-102 | chip-answered IRQ_STATUS reads until IDLE is set, then IRQ_CLEAR with 0xffffffff |
| Pn5180.SetRfOn | NFC/__init__.py:234-241 | `[0x16, 0x00]`, chip-answered IRQ_STATUS reads until TX_RFON is set, then IRQ_CLEAR of TX_RFON; returns True |
| Iso15693.InventoryRequest | NFC/__init__.py:338-343 | the request flags select high data rate, the Inventory flag and 16 slots, with one subcarrier, no AFI, no protocol extension, no option and the RFU bit clear; command 0x01, mask length 0 |
| Iso15693.SetupRf | NFC/__init__.py:373-390 | RF off, clear TX_RFOFF, load RF configuration 0x0D/0x8D, RF on, poll the chip until it answers TX_RFON, clear TX_RFON, then Idle/StopCom and Transceive in SYSTEM_CONFIG; returns True |
| Iso15693.AdvanceSlot | NFC/__init__.py:359-364 | the five slot-closing exchanges: AND TX_CONFIG 0xfffffb3f, AND SYSTEM_CONFIG 0xfffffff8, OR SYSTEM_CONFIG 0x3, IRQ clear 0x000fffff, EOF `[0x09, 0x00]` |
| Iso15693.FetchFrame | NFC/__init__.py:352-357 | a frame is collected exactly when RX_SOF_DET is set; then RX_STATUS is read and READ_DATA asks for the 9-bit length in the chip's answer, giving 0 and no read when that exceeds 508 |
| Iso15693.RunSlot | NFC/__init__.py:352-364 | one slot: the IRQ_STATUS read, whose word is the chip's answer, the frame fetch it calls for, and the slot-closing exchanges, all recorded in the slot record |
| Iso15693.SlotAnswered | NFC/__init__.py:352-357 | on a chip-produced trace a slot's IRQ word is the chip's answer after the history before the slot, and the slot collects a frame exactly when that answer, read as a little-endian word, has RX_SOF_DET set |
| Iso15693.Collect | NFC/__init__.py:349-357 | `uid_buffer` has at most one entry per slot, and is empty exactly when no slot collected a frame |
| Iso15693.CollectAppend | NFC/__init__.py:356-357 | a slot adds its frame to the end of `uid_buffer` when it has one, and nothing otherwise |
| Iso15693.FrameIffSof | NFC/__init__.py:352-357 | a slot collected a frame exactly when its IRQ_STATUS word had RX_SOF_DET |
| Iso15693.CollectedIffSof | NFC/__init__.py:352-370 | `uid_buffer` is non-empty exactly when some slot saw RX_SOF_DET |
| Iso15693.StartInventory | NFC/__init__.py:345-347 | `setup_RF`, the IRQ clear and `send_data([0x06, 0x01, 0x00])`, all answered by the chip, whose results are not checked |
| Iso15693.SlotLoop | NFC/__init__.py:350-364 | exactly 16 chip-answered slots, back to back; `uid_buffer` is the frames collected in slot order and `uid_counter` equals its length |
| Iso15693.GetInventory16Slots | NFC/__init__.py:336-370 | start phase, then 16 slots back to back, each on the bus as its record says; `uid_buffer` is the frames collected in slot order and `uid_counter == len(uid_buffer) <= 16`; EC_OK exactly when a frame was collected, which is exactly when some slot saw RX_SOF_DET, else EC_NO_CARD; every exchange is the chip's answer |
| Scenarios.SetupConfirmed | NFC/__init__.py:239 | against a chip that raises TX_RFON in every IRQ_STATUS answer, one read ends the wait for the RF field |
| Scenarios.SilentSlots | NFC/__init__.py:352-357 | against the chip with no tag, no slot of a chip-produced trace collects a frame |
| Scenarios.SlotOneEof | NFC/__init__.py:359-364 | every slot sends exactly one EOF frame, at its end |
| Scenarios.StartNoEof | NFC/__init__.py:345-347 | the start phase sends no EOF frame |
| Scenarios.TagFrame | NFC/__init__.py:353-356 | when RX_STATUS announces 10 bytes, READ_DATA fetches 10 and the tag's response is what is collected |
| Scenarios.InventoryNoTag | NFC/__init__.py:336-370 | with no tag in the field the inventory returns `(EC_NO_CARD, 0, [])` |
| Scenarios.InventoryTagInSlot5 | NFC/__init__.py:336-370 | with one tag answering in slot 5, only slot 5 collects a frame and the inventory returns `(EC_OK, 1, [response])` |

## Left out

- The busy-line handshake, chip-select toggling and `sleep_ms` delays of `__transceive_cmds` (lines 290-323), and the 15 ms pause after the inventory request. A transaction is one trace entry; timing is not modelled.
- `DEBUG` and the `print` in `read_eeprom`: console output only. `DEBUG` is an `async def` called without `await`, so it never prints anyway.
- `begin` and the reset pulse of `reset` (lines 88-98): GPIO levels and delays only.
- `get_product_version`, `get_eeprom_version`, `get_firmware_version`, `get_irq_config`: thin wrappers over `read_eeprom`, whose tuple unpacking would raise on its False return.
- `application.py` (pins, SPI set-up, LEDs, buttons, NVS storage) and `main.py` (the uasyncio loop): hardware glue and scheduling.
- Sharing one SPI bus between two reader instances: nothing in the code arbitrates it, and the model has one trace per reader.
- Pn5180.PollIrq: the `while … : pass` loops of `reset` and `set_RF_on` never end when the chip never raises the flag; the model stops after `fuel` reads and reports the unanswered reads instead.
- Pn5180.Reset: weaker than `reset`, which only returns once IDLE is seen; see the fuel bound above.
- Pn5180.SetRfOn: weaker than `set_RF_on`, which only returns once TX_RFON is seen; `None` stands for "still polling".
- Iso15693.SetupRf: the two `return False` branches of `setup_RF` are not modelled, because `load_RF_Config` and `set_RF_on` only ever return True. `None` stands for "still polling for TX_RFON".
- Iso15693.GetInventory16Slots: `None` stands for "still polling for TX_RFON in `setup_RF`".
- Iso15693.StartInventory: `false` stands for "still polling for TX_RFON in `setup_RF`"; the fuel bound cuts that wait short.
- Pn5180.PollIrq: the flag must be a single bit of a 32-bit word, as every flag the driver polls is. For other masks `& != 0` and `HasFlag` differ.
- Scenarios.InventoryNoTag, Scenarios.InventoryTagInSlot5: need `fuel >= 1`, because the chips raise TX_RFON on the first IRQ_STATUS read.
- Pn5180.StateOf: the Idle fallback of `get_transceive_state` is kept as the `!ok` case, but it is never reached, because `read_register` always reports success.
- Pn5180.ReadEeprom: the address is a `nat` and the length a `byte`. Negative addresses, and lengths that would make Python raise while building `bytes(...)`, are excluded by typing.
- Pn5180.WriteRegister: the value is a `u32`. The `OverflowError` that `to_bytes(4, 'little')` raises for values outside 0..2^32-1 is excluded by typing, and so is every register write variant's.
- Pn5180.SendData: the payload and `valid_bits` are bytes, so the `TypeError` Python raises for non-byte items is excluded by typing.
- The inventory ignores what `setup_RF` and `send_data` return: a refused or unsent request still leads to 16 slots. The model does the same.
- A slot whose RX_STATUS length exceeds 508 still appends `read_data`'s `0` to `uid_buffer` and counts it. The model does the same: the collected value is `NoData`.
