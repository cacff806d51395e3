/**
 * What one `update` of IliadDataController does to the receive buffer and what its
 * flag loop consumes, stated over the attempt function `Decoder.Step`.
 */
module DecoderProperties {
  import opened Wire
  import opened Bits
  import opened Fields
  import opened Catalog
  import opened Crc16
  import opened Decoder

  // ---------------------------------------------------------------- the flag loop

  /**
   * The flag loop reads the buffer front to back without gaps: the cursor sits right
   * after the header and the payload bytes gathered for the checksum.
   */
  lemma {:induction false} ScanShape(buf: seq<byte>, present: seq<nat>, k: nat)
    requires HeaderSize <= |buf| && k <= |AllTypes|
    ensures var s := ScanPrefix(buf, present, k);
      s.cursor == HeaderSize + |s.payload| && s.payload == buf[HeaderSize..s.cursor]
    decreases k
  {
    if k > 0 {
      ScanShape(buf, present, k - 1);
      var p := ScanPrefix(buf, present, k - 1);
      var t := AllTypes[k - 1];
      var next := ScanStep(buf, present, p, t);
      assert ScanPrefix(buf, present, k) == next;
      ShapeStep(buf, present, p, t);
    }
  }

  lemma ShapeStep(buf: seq<byte>, present: seq<nat>, p: Scan, t: PacketType)
    requires HeaderSize <= p.cursor <= |buf|
    requires p.cursor == HeaderSize + |p.payload| && p.payload == buf[HeaderSize..p.cursor]
    ensures var s := ScanStep(buf, present, p, t);
      s.cursor == HeaderSize + |s.payload| && s.payload == buf[HeaderSize..s.cursor]
  {
    var size := PayloadSize(t);
    if Flag(t) in present && |buf| - p.cursor >= size {
      assert buf[HeaderSize..p.cursor + size] == buf[HeaderSize..p.cursor] + buf[p.cursor..p.cursor + size];
    }
  }

  /**
   * After the passes for the first `k` catalog entries, entry `t` has been consumed
   * exactly when its flag is among the mask's flags and its block fits after what the
   * entries before it consumed; its block is then the `PayloadSize(t)` bytes there.
   */
  ghost predicate ConsumedAsRead(buf: seq<byte>, present: seq<nat>, k: nat, t: PacketType)
    requires HeaderSize <= |buf| && Index(t) < k <= |AllTypes|
  {
    var at := ScanPrefix(buf, present, Index(t)).cursor;
    var blocks := ScanPrefix(buf, present, k).blocks;
    && (t in blocks <==> Flag(t) in present && |buf| - at >= PayloadSize(t))
    && (t in blocks ==> blocks[t] == buf[at..at + PayloadSize(t)])
  }

  /**
   * Catalog entry `t` is consumed exactly when its flag is among the mask's flags and
   * its block fits after what the entries before it consumed; its block is then the
   * `PayloadSize(t)` bytes at that point, and later entries leave it alone.
   */
  lemma {:induction false} ScanConsumes(buf: seq<byte>, present: seq<nat>, k: nat, t: PacketType)
    requires HeaderSize <= |buf| && Index(t) < k <= |AllTypes|
    ensures ConsumedAsRead(buf, present, k, t)
    decreases k
  {
    if k > Index(t) + 1 {
      ScanConsumes(buf, present, k - 1, t);
      LaterPassKeeps(buf, present, k, t);
    } else {
      OwnPassConsumes(buf, present, t);
    }
  }

  /** The pass for entry `t` itself. */
  lemma OwnPassConsumes(buf: seq<byte>, present: seq<nat>, t: PacketType)
    requires HeaderSize <= |buf|
    ensures ConsumedAsRead(buf, present, Index(t) + 1, t)
  {
    var prev := ScanPrefix(buf, present, Index(t));
    NotYetConsumed(buf, present, Index(t), t);
    IndexEntry(t);
    assert ScanPrefix(buf, present, Index(t) + 1) == ScanStep(buf, present, prev, t);
    ConsumeStep(buf, present, prev, t, t);
  }

  /** A pass for a later entry than `t` leaves `t`'s block as it was. */
  lemma LaterPassKeeps(buf: seq<byte>, present: seq<nat>, k: nat, t: PacketType)
    requires HeaderSize <= |buf| && Index(t) < k - 1 && k <= |AllTypes|
    requires ConsumedAsRead(buf, present, k - 1, t)
    ensures ConsumedAsRead(buf, present, k, t)
  {
    LaterPassBlocks(buf, present, k, t);
  }

  lemma LaterPassBlocks(buf: seq<byte>, present: seq<nat>, k: nat, t: PacketType)
    requires HeaderSize <= |buf| && Index(t) < k - 1 && k <= |AllTypes|
    ensures var prev := ScanPrefix(buf, present, k - 1).blocks;
      var blocks := ScanPrefix(buf, present, k).blocks;
      (t in blocks <==> t in prev) && (t in prev ==> blocks[t] == prev[t])
  {
    var prev := ScanPrefix(buf, present, k - 1);
    var u := AllTypes[k - 1];
    EntryIndex(k - 1);
    assert ScanPrefix(buf, present, k) == ScanStep(buf, present, prev, u);
    ConsumeStep(buf, present, prev, u, t);
  }

  /** One pass consumes at most its own entry, at the cursor the earlier passes left. */
  lemma ConsumeStep(buf: seq<byte>, present: seq<nat>, p: Scan, u: PacketType, t: PacketType)
    requires p.cursor <= |buf|
    ensures var next := ScanStep(buf, present, p, u);
      && (u != t ==> (t in next.blocks <==> t in p.blocks))
      && (u != t && t in p.blocks ==> next.blocks[t] == p.blocks[t])
      && (u == t && t !in p.blocks ==>
            (t in next.blocks <==> Flag(t) in present && |buf| - p.cursor >= PayloadSize(t)))
      && (u == t && t !in p.blocks && t in next.blocks ==>
            next.blocks[t] == buf[p.cursor..p.cursor + PayloadSize(t)])
  {
  }

  // ---------------------------------------------------------------- what an attempt does to the buffer

  /**
   * How each outcome leaves the buffer: nothing is attempted on 10 bytes or fewer; a
   * hang and a missing footer drop nothing; a mismatched checksum drops exactly the
   * first byte; an accepted frame drops the whole frame, at least 10 bytes.
   */
  lemma StepBuffer(buf: seq<byte>, cursor: nat)
    ensures var a := Step(buf, cursor);
      && (a.outcome == Idle <==> |buf| <= 10)
      && (a.outcome == Idle ==> a.buffer == buf && a.cursor == cursor)
      && (a.outcome == Hang <==> |buf| > 10 && Int16Value(buf[0], buf[1]) < 0)
      && (a.outcome == Hang || a.outcome == MissingFooter ==> a.buffer == buf)
      && (a.outcome == Rejected ==> |buf| > 10 && a.buffer == buf[1..] && a.cursor == 0)
      && (a.outcome == Accepted ==>
            |buf| > 10 && |a.buffer| <= |buf| - 10 && a.buffer == buf[|buf| - |a.buffer|..] && a.cursor == 0)
  {
  }

  /** Every committed attempt shrinks the buffer; the others leave it as it was. */
  lemma StepProgress(buf: seq<byte>, cursor: nat)
    ensures var a := Step(buf, cursor);
      (a.outcome == Accepted || a.outcome == Rejected) <==> |a.buffer| < |buf|
  {
    StepBuffer(buf, cursor);
  }

  /** Only a frame that was read to the end can store anything. */
  lemma StepStoresOnlyAfterHeader(buf: seq<byte>, cursor: nat)
    ensures var a := Step(buf, cursor);
      a.outcome == Idle || a.outcome == Hang ==> a.blocks == map[]
  {
  }

  /**
   * A missing footer leaves the buffer as it was, so the next call with no new bytes
   * makes the same attempt again and appends the same points a second time.
   */
  lemma MissingFooterRepeats(buf: seq<byte>, cursor: nat)
    requires Step(buf, cursor).outcome == MissingFooter
    ensures var a := Step(buf, cursor);
      Step(a.buffer, a.cursor) == a
  {
  }

  /**
   * With a non-negative mask and a footer present, the frame is accepted exactly when
   * the CRC of everything the cursor passed (header and consumed blocks) equals the
   * footer read as a signed big-endian int32; the footer is missing exactly when fewer
   * than four bytes follow the last consumed block.
   */
  lemma AcceptedIffChecksum(buf: seq<byte>, cursor: nat)
    requires |buf| > 10 && Int16Value(buf[0], buf[1]) >= 0
    ensures var s := FullScan(buf);
      var a := Step(buf, cursor);
      && (a.outcome == MissingFooter <==> |buf| - s.cursor < 4)
      && (|buf| - s.cursor >= 4 ==>
            (a.outcome == Accepted <==> Checksum(buf[..s.cursor]) == Int32Value(buf[s.cursor..s.cursor + 4])))
  {
    var s := FullScan(buf);
    ScanShape(buf, SetBits(Int16Value(buf[0], buf[1])), |AllTypes|);
    assert buf[..2] + buf[2..6] + s.payload == buf[..s.cursor];
  }

  /**
   * Because the CRC has 16 bits, a frame is only accepted when the first two footer
   * bytes are zero and the last two hold the CRC, high byte first.
   */
  lemma AcceptedFooter(buf: seq<byte>, cursor: nat)
    requires Step(buf, cursor).outcome == Accepted
    ensures |buf| > 10 && Int16Value(buf[0], buf[1]) >= 0
    ensures var s := FullScan(buf);
      var crc := Checksum(buf[..s.cursor]);
      && s.cursor + 4 <= |buf| && buf[s.cursor..s.cursor + 4] == [0, 0, crc / 0x100, crc % 0x100]
      && Step(buf, cursor).buffer == buf[s.cursor + 4..]
  {
    var s := FullScan(buf);
    AcceptedIffChecksum(buf, cursor);
    var crc := Checksum(buf[..s.cursor]);
    Int32SmallValue(buf[s.cursor..s.cursor + 4], crc);
  }

  // ---------------------------------------------------------------- stored before checked

  /**
   * A frame with mask 1 (arm status only), timestamp 0, the arm-status block 1 1 1 and
   * the footer 0x7FFFFFFF, which can never match a 16-bit CRC.
   */
  const CorruptFrame: seq<byte> := [0, 1, 0, 0, 0, 0, 1, 1, 1, 0x7F, 0xFF, 0xFF, 0xFF]

  /**
   * The blocks are stored while they are read, before the checksum is looked at: the
   * corrupt frame is rejected, yet its arm-status block has already been appended.
   */
  lemma CorruptFrameStillStores()
    ensures var a := Step(CorruptFrame, 0);
      && a.outcome == Rejected
      && a.buffer == CorruptFrame[1..]
      && Points(Channel(ArmStatus, 0), a.time, a.blocks) == [Point([0, 0, 0, 0], BoolV(true))]
  {
    var s := Scan(9, [1, 1, 1], map[ArmStatus := [1, 1, 1]]);
    CorruptFrameScan();
    CorruptFrameParts();
    assert Step(CorruptFrame, 0) == Commit(CorruptFrame, s);
    ArmStatusAllSet();
    assert s.blocks[ArmStatus] == [1, 1, 1];
  }

  /** Where the timestamp, the block and the footer sit in the corrupt frame. */
  lemma CorruptFrameParts()
    ensures CorruptFrame[2..6] == [0, 0, 0, 0]
    ensures CorruptFrame[6..9] == [1, 1, 1]
    ensures Int32Value(CorruptFrame[9..13]) == 0x7FFF_FFFF
  {
    assert CorruptFrame[9..13] == [0x7F, 0xFF, 0xFF, 0xFF];
  }

  /** The flag loop over the corrupt frame consumes the arm-status block and nothing else. */
  lemma CorruptFrameScan()
    ensures |CorruptFrame| > 10 && Int16Value(CorruptFrame[0], CorruptFrame[1]) == 1
    ensures FullScan(CorruptFrame) == Scan(9, [1, 1, 1], map[ArmStatus := [1, 1, 1]])
  {
    var buf := CorruptFrame;
    assert Int16Value(buf[0], buf[1]) == 1;
    assert SetBits(1) == [1] by {
      assert BitsFrom(0, 1) == [];
    }
    var first := ScanPrefix(buf, [1], 1);
    assert first == ScanStep(buf, [1], Scan(6, [], map[]), ArmStatus);
    CorruptFrameParts();
    FlagsAfterArmStatusAbsent(buf, |AllTypes|);
  }

  /** The block 1 1 1 unpacks to three `True` flags. */
  lemma ArmStatusAllSet()
    ensures UnpackValues(ArmStatus, [1, 1, 1]) == [BoolV(true), BoolV(true), BoolV(true)]
  {
    assert [1, 1, 1][..1] == [1] && [1, 1, 1][1..] == [1, 1];
    assert [1, 1][..1] == [1] && [1, 1][1..] == [1];
    assert [1][..1] == [1] && [1][1..] == [];
  }

  /** With only the arm-status flag present, the loop consumes at most that one block. */
  lemma {:induction false} FlagsAfterArmStatusAbsent(buf: seq<byte>, k: nat)
    requires HeaderSize <= |buf| && 1 <= k <= |AllTypes|
    ensures ScanPrefix(buf, [1], k) == ScanPrefix(buf, [1], 1)
    decreases k
  {
    if k > 1 {
      FlagsAfterArmStatusAbsent(buf, k - 1);
      CatalogFlags();
      Pow2Monotonic(0, k - 1);
      assert Flag(AllTypes[k - 1]) != 1;
    }
  }
}
