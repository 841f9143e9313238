/**
 The SPI exchange with the PN5180 (`__transceive_cmds`), reduced to what is visible to the
 layers above it. The busy-line handshake, chip-select toggling and delays are not modelled:
 one exchange is one entry of an append-only trace, and the chip is an oracle that answers
 a read from the history of the bus so far.
 */
module Bus {
  import opened Bytes

  /** One exchange: the frame written, the number of bytes read back (0 = write-only) and those bytes. */
  datatype Transaction = Transaction(tx: seq<byte>, rxLen: nat, rx: seq<byte>)

  /** Every exchange on one reader's bus, oldest first. */
  type Trace = seq<Transaction>

  /** The chip: given the bus history and the frame just written, the i-th byte it clocks back. */
  type Chip = (Trace, seq<byte>, nat) -> byte

  /** What `__transceive_cmds` hands back: the integer 0 for a write-only exchange, else the bytes read. */
  datatype RxData = NoData | Data(bytes: seq<byte>)

  /** The `n` bytes the chip answers to `tx` after history `t`. */
  function Answer(chip: Chip, t: Trace, tx: seq<byte>, n: nat): (rx: seq<byte>)
    ensures |rx| == n
    ensures forall i | 0 <= i < n :: rx[i] == chip(t, tx, i)
  {
    seq(n, (i: int) requires 0 <= i => chip(t, tx, i))
  }

  /** The value `__transceive_cmds` returns for the recorded exchange `e`. */
  function RxOf(e: Transaction): (r: RxData)
    ensures r == NoData <==> e.rxLen == 0
    ensures r.Data? ==> r.bytes == e.rx
  {
    if e.rxLen == 0 then NoData else Data(e.rx)
  }

  /** `t'` is `t` with zero or more exchanges appended. */
  predicate Grows(t: Trace, t': Trace)
  {
    |t| <= |t'| && t'[..|t|] == t
  }

  /** `t'` is `t` followed by exactly `n` further exchanges. */
  predicate Extends(t: Trace, t': Trace, n: nat)
  {
    Grows(t, t') && |t'| == |t| + n
  }

  /** A write-only exchange: no read phase, nothing received. */
  predicate IsWrite(e: Transaction, frame: seq<byte>)
  {
    e.tx == frame && e.rxLen == 0 && e.rx == []
  }

  /** An exchange that writes `frame` and then reads back exactly `n` bytes. */
  predicate IsRead(e: Transaction, frame: seq<byte>, n: nat)
  {
    e.tx == frame && e.rxLen == n && |e.rx| == n
  }

  /**
   Every exchange of `tr` from position `k` on holds what `chip` answers to its frame after the
   history before it.
   */
  predicate AnsweredFrom(chip: Chip, tr: Trace, k: nat)
  {
    forall i | k <= i < |tr| :: AnsweredEntry(chip, tr, i)
  }

  /** Exchange `i` of `tr` holds what `chip` answers to its frame after the history before it. */
  predicate AnsweredEntry(chip: Chip, tr: Trace, i: nat)
    requires i < |tr|
  {
    tr[i].rx == Answer(chip, tr[..i], tr[i].tx, tr[i].rxLen)
  }

  /** Every exchange of `tr` is the chip's answer: `tr` is a trace `chip` can produce. */
  predicate Answered(chip: Chip, tr: Trace)
  {
    AnsweredFrom(chip, tr, 0)
  }

  /**
   `__transceive_cmds(tx, rxLen)`: write `tx`; when `rxLen` is 0 stop there and return 0,
   otherwise read exactly `rxLen` bytes (the chip's answer) and return them.
   */
  method Transceive(chip: Chip, t: Trace, tx: seq<byte>, rxLen: nat) returns (rx: RxData, t': Trace)
    ensures Extends(t, t', 1) && AnsweredFrom(chip, t', |t|)
    ensures rxLen == 0 ==> IsWrite(t'[|t|], tx) && rx == NoData
    ensures rxLen > 0 ==> IsRead(t'[|t|], tx, rxLen) && rx == Data(Answer(chip, t, tx, rxLen))
    ensures t'[|t|].rx == Answer(chip, t, tx, rxLen)
  {
    var e := Transaction(tx, rxLen, Answer(chip, t, tx, rxLen));
    rx := RxOf(e);
    t' := t + [e];
    assert t'[..|t'| - 1] == t;
    assert AnsweredEntry(chip, t', |t|);
  }

  /** The slice of an extended trace below the old length is the old slice. */
  lemma SliceOfExtension(t: Trace, t': Trace, a: nat, b: nat)
    requires Grows(t, t')
    requires a <= b <= |t|
    ensures t'[a..b] == t[a..b]
  {
    assert forall i | a <= i < b :: t'[i] == t'[..|t|][i];
  }

  /** An extended trace keeps every old exchange in place. */
  lemma PrefixIndex(t: Trace, t': Trace, i: nat)
    requires Grows(t, t') && i < |t|
    ensures t'[i] == t[i]
  {
    assert t'[i] == t'[..|t|][i];
  }

  lemma GrowsTrans(a: Trace, b: Trace, c: Trace)
    requires Grows(a, b) && Grows(b, c)
    ensures Grows(a, c)
  {
    SliceOfExtension(b, c, 0, |a|);
  }

  /**
   Answers from `k` up to the end of `u`, then answers after `u` in its extension `v`:
   answers from `k` throughout `v`.
   */
  lemma AnsweredJoin(chip: Chip, u: Trace, v: Trace, k: nat)
    requires Grows(u, v) && k <= |u|
    requires AnsweredFrom(chip, u, k) && AnsweredFrom(chip, v, |u|)
    ensures AnsweredFrom(chip, v, k)
  {
    forall i | k <= i < |u|
      ensures AnsweredEntry(chip, v, i)
    {
      assert AnsweredEntry(chip, u, i);
      PrefixIndex(u, v, i);
      SliceOfExtension(u, v, 0, i);
      assert u[..i] == u[0..i];
    }
  }

  /** The exchange at position `i` of an answered stretch is the chip's answer to its frame. */
  lemma AnsweredAt(chip: Chip, tr: Trace, k: nat, i: nat)
    requires AnsweredFrom(chip, tr, k) && k <= i < |tr|
    ensures tr[i].rx == Answer(chip, tr[..i], tr[i].tx, tr[i].rxLen)
  {
    assert AnsweredEntry(chip, tr, i);
  }
}
