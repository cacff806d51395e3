/**
 * The decoder against the encoder: a frame built by `create_packet`, followed by any
 * later bytes, is accepted by `IliadDataController.update`, which recovers its
 * timestamp and exactly the blocks the encoder packed, and leaves the later bytes in
 * the buffer.
 */
module RoundTrip {
  import opened Wire
  import opened Results
  import opened Bits
  import opened Fields
  import opened Catalog
  import opened Crc16
  import opened Encoder
  import opened Decoder
  import opened DecoderProperties

  /** A catalog flag is among the mask's decomposed flags exactly when its bit is set. */
  lemma FlagPresent(m: nat, t: PacketType)
    ensures Flag(t) in SetBits(m) <==> Bit(m, Index(t))
  {
    BitsFromContains(m, 0, Index(t));
  }

  /** `full` sits in `buf` right after the six header bytes. */
  predicate BodyAt(buf: seq<byte>, full: seq<byte>)
  {
    HeaderSize + |full| <= |buf| && buf[HeaderSize..HeaderSize + |full|] == full
  }

  /** What a longer prefix of the body adds sits in `buf` right after the shorter one. */
  lemma BlockAt(buf: seq<byte>, full: seq<byte>, body: seq<byte>, next: seq<byte>)
    requires BodyAt(buf, full) && body <= next <= full
    ensures HeaderSize + |next| <= |buf|
    ensures buf[HeaderSize + |body|..HeaderSize + |next|] == next[|body|..]
  {
    forall i | 0 <= i < |next| - |body|
      ensures buf[HeaderSize + |body|..HeaderSize + |next|][i] == next[|body|..][i]
    {
      assert buf[HeaderSize + |body| + i] == full[|body| + i] == next[|body| + i];
    }
  }

  /**
   * One pass of the flag loop over a buffer holding the body `full`, from a state that
   * has read exactly `body`: a present flag reads on to the longer prefix `next`, an
   * absent one leaves the state alone.
   */
  lemma StepReads(buf: seq<byte>, present: seq<nat>, s: Scan, t: PacketType, full: seq<byte>, body: seq<byte>, next: seq<byte>)
    requires BodyAt(buf, full) && next <= full
    requires s.cursor == HeaderSize + |body| && s.payload == body
    requires Flag(t) in present ==> body <= next && |next| == |body| + PayloadSize(t)
    requires Flag(t) !in present ==> next == body
    ensures s.cursor <= |buf|
    ensures var r := ScanStep(buf, present, s, t);
      r.cursor == HeaderSize + |next| && r.payload == next
  {
    if Flag(t) in present {
      BlockAt(buf, full, body, next);
      assert body + next[|body|..] == next;
    }
  }

  /**
   * After the passes for the first `k` catalog entries, the decoder's cursor and
   * checksum payload are exactly where the encoder's body for those entries ends.
   */
  ghost predicate ReadsBack(buf: seq<byte>, m: nat, data: seq<Value>, k: nat)
    requires HeaderSize <= |buf| && k <= |AllTypes| && EncodePrefix(m, data, k).Ok?
  {
    var s := ScanPrefix(buf, SetBits(m), k);
    var body := EncodePrefix(m, data, k).value.0;
    s.cursor == HeaderSize + |body| && s.payload == body
  }

  /**
   * Over a buffer holding the encoder's body after its header, the flag loop reads
   * the body back entry by entry.
   */
  lemma {:induction false} ScanReadsBody(buf: seq<byte>, m: nat, data: seq<Value>, k: nat)
    requires k <= |AllTypes| && EncodePrefix(m, data, |AllTypes|).Ok?
    requires BodyAt(buf, EncodePrefix(m, data, |AllTypes|).value.0)
    ensures EncodePrefix(m, data, k).Ok? && ReadsBack(buf, m, data, k)
    decreases k
  {
    EncodePrefixExtends(m, data, k, |AllTypes|);
    if k > 0 {
      ScanReadsBody(buf, m, data, k - 1);
      ReadStep(buf, m, data, k - 1);
    }
  }

  lemma ReadStep(buf: seq<byte>, m: nat, data: seq<Value>, k: nat)
    requires k < |AllTypes| && EncodePrefix(m, data, |AllTypes|).Ok?
    requires BodyAt(buf, EncodePrefix(m, data, |AllTypes|).value.0)
    requires EncodePrefix(m, data, k).Ok? && ReadsBack(buf, m, data, k)
    ensures EncodePrefix(m, data, k + 1).Ok? && ReadsBack(buf, m, data, k + 1)
  {
    EncodePrefixExtends(m, data, k + 1, |AllTypes|);
    EncodePrefixGrows(m, data, k);
    var t := AllTypes[k];
    EntryIndex(k);
    FlagPresent(m, t);
    var s := ScanPrefix(buf, SetBits(m), k);
    StepReads(buf, SetBits(m), s, t, EncodePrefix(m, data, |AllTypes|).value.0,
      EncodePrefix(m, data, k).value.0, EncodePrefix(m, data, k + 1).value.0);
    assert ScanPrefix(buf, SetBits(m), k + 1) == ScanStep(buf, SetBits(m), s, t);
  }

  /**
   * The loop consumes catalog entry `t` exactly when its bit is set in the mask, and
   * its block is then the one the encoder packed from the data values at index
   * `CatalogFields(m, Index(t))`.
   */
  lemma DecodedBlock(buf: seq<byte>, m: nat, data: seq<Value>, t: PacketType)
    requires EncodePrefix(m, data, |AllTypes|).Ok?
    requires BodyAt(buf, EncodePrefix(m, data, |AllTypes|).value.0)
    ensures var blocks := ScanPrefix(buf, SetBits(m), |AllTypes|).blocks;
      && (t in blocks <==> Bit(m, Index(t)))
      && (t in blocks ==> PackBlock(t, data, CatalogFields(m, Index(t))) == Ok(blocks[t]))
  {
    var k := Index(t);
    IndexEntry(t);
    ScanReadsBody(buf, m, data, k);
    ScanConsumes(buf, SetBits(m), |AllTypes|, t);
    FlagPresent(m, t);
    EncodePrefixExtends(m, data, k + 1, |AllTypes|);
    EncodePrefixGrows(m, data, k);
    var body := EncodePrefix(m, data, k).value.0;
    var next := EncodePrefix(m, data, k + 1).value.0;
    ConsumedBlock(buf, SetBits(m), t, EncodePrefix(m, data, |AllTypes|).value.0, body, next);
    if Bit(m, k) {
      EntryBlock(m, data, k);
    }
  }

  /**
   * Catalog entry `t`, reached with exactly `body` read, is consumed exactly when its
   * flag is present, and its block is then what the longer prefix `next` adds.
   */
  lemma ConsumedBlock(buf: seq<byte>, present: seq<nat>, t: PacketType, full: seq<byte>, body: seq<byte>, next: seq<byte>)
    requires BodyAt(buf, full) && ConsumedAsRead(buf, present, |AllTypes|, t)
    requires ScanPrefix(buf, present, Index(t)).cursor == HeaderSize + |body|
    requires Flag(t) in present ==> body <= next <= full && |next| == |body| + PayloadSize(t)
    ensures var blocks := ScanPrefix(buf, present, |AllTypes|).blocks;
      && (t in blocks <==> Flag(t) in present)
      && (t in blocks ==> blocks[t] == next[|body|..])
  {
    if Flag(t) in present {
      BlockAt(buf, full, body, next);
    }
  }

  /**
   * A frame whose mask selects no block is exactly ten bytes long, one short of what
   * `update` waits for: on its own it stays in the buffer untouched until more bytes
   * arrive.
   */
  lemma EmptyFrameWaits(time: Word, data: seq<Value>, cursor: nat)
    ensures Encode(0, time, data).Ok? && |Encode(0, time, data).value| == 10
    ensures var frame := Encode(0, time, data).value;
      var a := Step(frame, cursor);
      a.outcome == Idle && a.buffer == frame && a.cursor == cursor
  {
    assert SetBits(0) == [];
  }

  /** A slice of the frame reads the same once later bytes follow it. */
  lemma SliceOfFrame(frame: seq<byte>, rest: seq<byte>, i: nat, j: nat)
    requires i <= j <= |frame|
    ensures (frame + rest)[i..j] == frame[i..j]
  {
  }

  /**
   * `update` on a buffer holding a frame from `create_packet` and then any bytes
   * `rest` accepts the frame: it leaves exactly `rest` with the cursor reset,
   * recovers the timestamp, consumes exactly the catalog entries whose mask bit is
   * set, and reads each one's block as the encoder packed it.
   */
  lemma RoundTrip(types: int, time: Word, data: seq<Value>, rest: seq<byte>, cursor: nat)
    requires 0 <= types && Encode(types, time, data).Ok?
    requires |Encode(types, time, data).value| + |rest| > 10
    ensures var a := Step(Encode(types, time, data).value + rest, cursor);
      && a.outcome == Accepted && a.buffer == rest && a.cursor == 0 && a.time == time
      && (forall t :: t in a.blocks <==> Bit(types, Index(t)))
      && (forall t :: t in a.blocks ==> PackBlock(t, data, CatalogFields(types, Index(t))) == Ok(a.blocks[t]))
  {
    FrameLayout(types, time, data);
    var frame := Encode(types, time, data).value;
    var buf := frame + rest;
    var n := |frame|;
    var full := EncodePrefix(types, data, |AllTypes|).value.0;
    SliceOfFrame(frame, rest, 0, 2);
    SliceOfFrame(frame, rest, 2, 6);
    SliceOfFrame(frame, rest, 6, n - 4);
    SliceOfFrame(frame, rest, n - 4, n);
    SliceOfFrame(frame, rest, 0, n - 4);
    assert buf[0] == frame[0] && buf[1] == frame[1];
    assert BodyAt(buf, full);
    ScanReadsBody(buf, types, data, |AllTypes|);
    var s := FullScan(buf);
    assert s.cursor == n - 4 && s.payload == full;
    assert frame[..n - 4] == frame[..2] + frame[2..6] + frame[6..n - 4];
    assert buf[n - 4..n] == frame[n - 4..];
    assert buf[n..] == rest;
    forall t
      ensures var blocks := s.blocks;
        && (t in blocks <==> Bit(types, Index(t)))
        && (t in blocks ==> PackBlock(t, data, CatalogFields(types, Index(t))) == Ok(blocks[t]))
    {
      DecodedBlock(buf, types, data, t);
    }
  }

  /**
   * The points the sender meant for series list `c` when the blocks of mask `types`
   * pack from `data`: the value at the channel's field, as its format stores it, when
   * the channel's type is routed and its mask bit set; nothing otherwise.
   */
  function SentPoints(c: Channel, types: nat, time: Word, data: seq<Value>): seq<Point>
    requires IsChannel(c) && EncodePrefix(types, data, |AllTypes|).Ok?
  {
    ChannelsFit(c.kind);
    if Routed(c.kind) && Bit(types, Index(c.kind)) then
      EntryPacked(types, data, c.kind);
      var idx := CatalogFields(types, Index(c.kind));
      [Point(time, Normalized(Codes(c.kind)[c.field], data[idx + c.field]))]
    else []
  }

  /**
   * Blocks that hold exactly the packed entries whose mask bit is set give each
   * series list the points the sender meant for it.
   */
  lemma PointsOfSentBlocks(c: Channel, time: Word, blocks: map<PacketType, seq<byte>>, types: nat, data: seq<Value>)
    requires IsChannel(c) && WellFormed(blocks) && EncodePrefix(types, data, |AllTypes|).Ok?
    requires c.kind in blocks <==> Bit(types, Index(c.kind))
    requires c.kind in blocks ==> PackBlock(c.kind, data, CatalogFields(types, Index(c.kind))) == Ok(blocks[c.kind])
    ensures Points(c, time, blocks) == SentPoints(c, types, time, data)
  {
    var t := c.kind;
    ChannelsFit(t);
    if Routed(t) && t in blocks {
      var idx := CatalogFields(types, Index(t));
      SentBlockValue(t, data, idx, blocks[t], c.field);
      var v := Normalized(Codes(t)[c.field], data[idx + c.field]);
      assert Points(c, time, blocks) == [Point(time, v)];
      assert SentPoints(c, types, time, data) == [Point(time, v)];
    } else {
      assert Points(c, time, blocks) == [];
      assert SentPoints(c, types, time, data) == [];
    }
  }

  /** Field `f` of a block packed from `data` at `idx` unpacks to value `idx + f`, as its code stores it. */
  lemma SentBlockValue(t: PacketType, data: seq<Value>, idx: nat, bytes: seq<byte>, f: nat)
    requires PackBlock(t, data, idx) == Ok(bytes) && f < FieldCount(t)
    ensures idx + f < |data| && |bytes| == PayloadSize(t)
    ensures UnpackValues(t, bytes)[f] == Normalized(Codes(t)[f], data[idx + f])
  {
    PackBlockUnpacks(t, data, idx);
  }

  /**
   * After the round trip each routed series list gains exactly the point the sender
   * meant for it, and every other list gains nothing.
   */
  lemma RoundTripPoints(types: nat, time: Word, data: seq<Value>, rest: seq<byte>, cursor: nat, c: Channel)
    requires Encode(types, time, data).Ok? && IsChannel(c)
    requires |Encode(types, time, data).value| + |rest| > 10
    ensures EncodePrefix(types, data, |AllTypes|).Ok?
    ensures var a := Step(Encode(types, time, data).value + rest, cursor);
      Points(c, a.time, a.blocks) == SentPoints(c, types, time, data)
  {
    EncodeValue(types, time, data);
    RoundTrip(types, time, data, rest, cursor);
    var a := Step(Encode(types, time, data).value + rest, cursor);
    PointsOfSentBlocks(c, a.time, a.blocks, types, data);
  }

  /**
   * A frame with only the arm-status flag and three true values reaches each of the
   * three arm channels as one true point at the frame's timestamp.
   */
  lemma ArmStatusRoundTrip(time: Word, cursor: nat)
    ensures var frame := Encode(1, time, [BoolV(true), BoolV(true), BoolV(true)]);
      && frame.Ok? && |frame.value| == 13
      && var a := Step(frame.value, cursor);
      && a.outcome == Accepted && a.buffer == []
      && forall j :: 0 <= j < 3 ==> Points(Channel(ArmStatus, j), a.time, a.blocks) == [Point(time, BoolV(true))]
  {
    var data := [BoolV(true), BoolV(true), BoolV(true)];
    ArmStatusFrame(time);
    RoundTrip(1, time, data, [], cursor);
    var frame := Encode(1, time, data).value;
    assert frame + [] == frame;
    forall j | 0 <= j < 3
      ensures Points(Channel(ArmStatus, j), time, Step(frame, cursor).blocks) == [Point(time, BoolV(true))]
    {
      RoundTripPoints(1, time, data, [], cursor, Channel(ArmStatus, j));
      ArmStatusSent(time, j);
    }
  }

  /** Three truth values under the arm-status flag alone make a 13-byte frame. */
  lemma ArmStatusFrame(time: Word)
    ensures var frame := Encode(1, time, [BoolV(true), BoolV(true), BoolV(true)]);
      frame.Ok? && |frame.value| == 13
  {
    var data := [BoolV(true), BoolV(true), BoolV(true)];
    assert SetBits(1) == [1] by {
      assert BitsFrom(0, 1) == [];
    }
    assert [1][..0] == [];
    assert data[0..3] == data;
    assert "???"[1..] == "??" && "??"[1..] == "?" && "?"[1..] == "";
    assert Pack("???", data).Ok?;
    TypeOfFlagInverts(ArmStatus);
    assert FlagStep(1, data, [], 0) == BlockStep(ArmStatus, data, [], 0);
  }

  /** For that frame, each arm channel was meant to get one true point. */
  lemma ArmStatusSent(time: Word, j: nat)
    requires j < 3
    ensures var data := [BoolV(true), BoolV(true), BoolV(true)];
      EncodePrefix(1, data, |AllTypes|).Ok? && IsChannel(Channel(ArmStatus, j))
      && SentPoints(Channel(ArmStatus, j), 1, time, data) == [Point(time, BoolV(true))]
  {
    ArmStatusFrame(time);
    EncodeValue(1, time, [BoolV(true), BoolV(true), BoolV(true)]);
    assert Bit(1, 0);
    assert CatalogFields(1, 0) == 0;
    assert Codes(ArmStatus)[j] == '?';
    assert Normalized('?', BoolV(true)) == BoolV(true);
  }
}
