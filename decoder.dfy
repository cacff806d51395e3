/**
 * The stream decoder of data_controllers/iliad_data_controller.py: one parse attempt
 * over the receive buffer per `update`, read through a cursor (header, the payload
 * blocks the mask selects, footer), committed by dropping the frame when the CRC
 * matches and a single byte when it does not.
 */
module Decoder {
  import opened Wire
  import opened Bits
  import opened Fields
  import opened Catalog
  import opened Crc16

  /** One of the controller's series lists: the list of field `field` of packet type `kind`. */
  datatype Channel = Channel(kind: PacketType, field: nat)

  /** One entry of a series list: `(timestamp, value)`. */
  datatype Point = Point(time: Word, value: Value)

  /**
   * The packet types whose blocks are stored: the if/elif chain after the unpack has
   * branches for these six only.
   */
  predicate Routed(t: PacketType)
  {
    t == ArmStatus || t == Altitude || t == Acceleration || t == GpsCoordinates
    || t == BoardTemperature || t == BoardVoltage
  }

  /**
   * How many series lists the controller keeps for each packet type; a stored type
   * has one list per field of its format.
   */
  function ChannelCount(t: PacketType): nat
  {
    match t
    case ArmStatus => 3
    case Altitude => 2
    case Acceleration => 3
    case GpsCoordinates => 2
    case BoardTemperature => 4
    case BoardVoltage => 4
    case BoardCurrent => 3
    case BatteryVoltage => 3
    case Magnetometer => 3
    case Gyroscope => 3
    case GpsSatellites => 1
    case GpsGroundSpeed => 1
  }

  /** No type has more lists than fields, and a stored type has one list per field. */
  lemma ChannelsFit(t: PacketType)
    ensures ChannelCount(t) <= FieldCount(t)
    ensures Routed(t) ==> ChannelCount(t) == FieldCount(t)
  {
  }

  predicate IsChannel(c: Channel)
  {
    c.field < ChannelCount(c.kind)
  }

  /** The 32 series lists the constructor creates. */
  const AllChannels: set<Channel> := set t, j | t in AllTypes && 0 <= j < ChannelCount(t) :: Channel(t, j)

  lemma AllChannelsAreChannels()
    ensures forall c :: c in AllChannels <==> IsChannel(c)
  {
    forall c | IsChannel(c)
      ensures c in AllChannels
    {
      IndexEntry(c.kind);
    }
  }

  /** The tuple of list references passed to `store_packet_data` for packet type `t`. */
  function Channels(t: PacketType): (cs: seq<Channel>)
    ensures |cs| == ChannelCount(t)
    ensures forall j :: 0 <= j < |cs| ==> cs[j] == Channel(t, j)
  {
    seq(ChannelCount(t), j requires 0 <= j => Channel(t, j))
  }

  /** Every stored block has its type's payload size. */
  predicate WellFormed(blocks: map<PacketType, seq<byte>>)
  {
    forall t :: t in blocks ==> |blocks[t]| == PayloadSize(t)
  }

  // ---------------------------------------------------------------- the attempt as a function

  /** The header: mask (2 bytes) and timestamp (4 bytes). */
  const HeaderSize: nat := 6

  /**
   * The parse state after some passes of the flag loop: the cursor, the payload bytes
   * accumulated for the checksum, and the block consumed for each flag.
   */
  datatype Scan = Scan(cursor: nat, payload: seq<byte>, blocks: map<PacketType, seq<byte>>)

  /**
   * One pass of the flag loop for catalog entry `t`: the block is consumed exactly when
   * the flag is among the mask's flags and enough bytes remain; otherwise nothing moves.
   */
  function ScanStep(buf: seq<byte>, present: seq<nat>, s: Scan, t: PacketType): (r: Scan)
    requires s.cursor <= |buf|
    ensures s.cursor <= r.cursor <= |buf|
    ensures forall u :: u in r.blocks ==> u in s.blocks || u == t
    ensures WellFormed(s.blocks) ==> WellFormed(r.blocks)
  {
    var size := PayloadSize(t);
    if Flag(t) in present && |buf| - s.cursor >= size then
      var bytes := buf[s.cursor..s.cursor + size];
      Scan(s.cursor + size, s.payload + bytes, s.blocks[t := bytes])
    else s
  }

  /** The parse state after the passes for the first `k` catalog entries. */
  function ScanPrefix(buf: seq<byte>, present: seq<nat>, k: nat): (s: Scan)
    requires HeaderSize <= |buf| && k <= |AllTypes|
    ensures HeaderSize <= s.cursor <= |buf|
    ensures WellFormed(s.blocks)
  {
    if k == 0 then Scan(HeaderSize, [], map[])
    else ScanStep(buf, present, ScanPrefix(buf, present, k - 1), AllTypes[k - 1])
  }

  /** The passes for the first `k` entries consume no later entry. */
  lemma {:induction false} NotYetConsumed(buf: seq<byte>, present: seq<nat>, k: nat, t: PacketType)
    requires HeaderSize <= |buf| && k <= Index(t)
    ensures t !in ScanPrefix(buf, present, k).blocks
    decreases k
  {
    if k > 0 {
      NotYetConsumed(buf, present, k - 1, t);
      EntryIndex(k - 1);
      var u := AllTypes[k - 1];
      assert u != t;
      assert ScanPrefix(buf, present, k) == ScanStep(buf, present, ScanPrefix(buf, present, k - 1), u);
    }
  }

  /**
   * How an `update` call ends: no attempt (10 bytes or fewer buffered), a mask whose
   * decomposition never ends, an UnboundLocalError for a missing footer, or a
   * committed attempt whose checksum matched or did not.
   */
  datatype Outcome = Idle | Hang | MissingFooter | Accepted | Rejected

  /** What one attempt leaves behind, and the blocks it consumed (and stored) on the way. */
  datatype Attempt = Attempt(
    outcome: Outcome,
    buffer: seq<byte>,
    cursor: nat,
    time: Word,
    blocks: map<PacketType, seq<byte>>)

  /** A placeholder timestamp for attempts that never read one. */
  const NoTime: Word := [0, 0, 0, 0]

  /** The parse state after the whole flag loop over `buf`, whose mask is non-negative. */
  function FullScan(buf: seq<byte>): Scan
    requires HeaderSize <= |buf| && Int16Value(buf[0], buf[1]) >= 0
  {
    ScanPrefix(buf, SetBits(Int16Value(buf[0], buf[1])), |AllTypes|)
  }

  /**
   * One `update` after the new bytes were appended to the buffer `buf`; `cursor` is
   * the cursor the previous call left.
   */
  function Step(buf: seq<byte>, cursor: nat): (a: Attempt)
    ensures WellFormed(a.blocks)
  {
    if |buf| <= 10 then Attempt(Idle, buf, cursor, NoTime, map[])
    else if Int16Value(buf[0], buf[1]) < 0 then Attempt(Hang, buf, 0, NoTime, map[])
    else Commit(buf, FullScan(buf))
  }

  /**
   * The end of an attempt whose flag loop left the parse state `s`: the footer is read
   * and the frame dropped if its CRC matches, a single byte if it does not.
   */
  function Commit(buf: seq<byte>, s: Scan): (a: Attempt)
    requires HeaderSize <= s.cursor <= |buf| && WellFormed(s.blocks)
    ensures a.outcome == MissingFooter || a.outcome == Accepted || a.outcome == Rejected
    ensures a.time == buf[2..6] && a.blocks == s.blocks
  {
    var time: Word := buf[2..6];
    if |buf| - s.cursor < 4 then Attempt(MissingFooter, buf, s.cursor, time, s.blocks)
    else if Checksum(buf[..2] + buf[2..6] + s.payload) == Int32Value(buf[s.cursor..s.cursor + 4]) then
      Attempt(Accepted, buf[s.cursor + 4..], 0, time, s.blocks)
    else
      Attempt(Rejected, buf[1..], 0, time, s.blocks)
  }

  /**
   * What an attempt appends to series list `c`: one `(timestamp, field)` point when
   * `c`'s type was consumed and is stored, nothing otherwise.
   */
  function Points(c: Channel, time: Word, blocks: map<PacketType, seq<byte>>): seq<Point>
    requires IsChannel(c) && WellFormed(blocks)
  {
    ChannelsFit(c.kind);
    if Routed(c.kind) && c.kind in blocks then
      [Point(time, UnpackValues(c.kind, blocks[c.kind])[c.field])]
    else []
  }

  /** What storing the block `bytes` of type `t` appends to list `c`. */
  function BlockPoints(c: Channel, t: PacketType, time: Word, bytes: seq<byte>): seq<Point>
    requires IsChannel(c) && |bytes| == PayloadSize(t)
  {
    ChannelsFit(t);
    if Routed(t) && c.kind == t then [Point(time, UnpackValues(t, bytes)[c.field])] else []
  }

  /** The points the first `k` entries of `fields` add to list `c`. */
  function Hits(c: Channel, fields: seq<Channel>, time: Word, payload: seq<Value>, k: nat): seq<Point>
    requires k <= |fields| <= |payload|
  {
    if k == 0 then []
    else Hits(c, fields, time, payload, k - 1) + (if fields[k - 1] == c then [Point(time, payload[k - 1])] else [])
  }

  // ---------------------------------------------------------------- the controller

  class IliadDataController {
    /** `data_buffer`: received bytes not yet consumed. */
    var buffer: seq<byte>
    /** `idx_cursor`: the read position inside `buffer`. */
    var cursor: nat
    /** The 32 `*_data` lists, keyed by channel. */
    var series: map<Channel, seq<Point>>

    /** The series map holds exactly the 32 lists (`AllChannels`, by `AllChannelsAreChannels`). */
    ghost predicate Valid()
      reads this
    {
      forall c :: c in series <==> IsChannel(c)
    }

    /** An empty buffer and 32 empty series lists. */
    constructor()
      ensures Valid() && buffer == [] && cursor == 0
      ensures forall c :: IsChannel(c) ==> series[c] == []
    {
      buffer := [];
      cursor := 0;
      series := map c | c in AllChannels :: [];
      AllChannelsAreChannels();
    }

    /**
     * `store_packet_data(fields, timestamp, payload)`: appends `(timestamp, payload[i])`
     * to the list `fields[i]`, for each `i` in turn.
     */
    method StorePacketData(fields: seq<Channel>, time: Word, payload: seq<Value>)
      requires Valid()
      requires forall i :: 0 <= i < |fields| ==> IsChannel(fields[i])
      requires |fields| <= |payload|
      modifies this`series
      ensures Valid()
      ensures forall c :: IsChannel(c) ==>
        series[c] == old(series)[c] + Hits(c, fields, time, payload, |fields|)
    {
      for i := 0 to |fields|
        invariant Valid()
        invariant forall c :: IsChannel(c) ==>
          series[c] == old(series)[c] + Hits(c, fields, time, payload, i)
      {
        var c := fields[i];
        series := series[c := series[c] + [Point(time, payload[i])]];
      }
    }

    /**
     * The `for packet_type in [...]` loop of `update`: for each catalog flag in
     * ascending order, a flag among the mask's flags whose block fits is unpacked,
     * consumed (the cursor moves past it and its bytes join the checksum input), and,
     * for a stored type, its fields are appended to the type's series lists.
     */
    method ParseBlocks(present: seq<nat>, time: Word) returns (payload: seq<byte>, blocks: map<PacketType, seq<byte>>)
      requires Valid() && HeaderSize <= |buffer| && cursor == HeaderSize
      modifies this`cursor, this`series
      ensures Valid()
      ensures Scan(cursor, payload, blocks) == ScanPrefix(buffer, present, |AllTypes|)
      ensures forall c :: IsChannel(c) ==> series[c] == old(series)[c] + Points(c, time, blocks)
    {
      payload := [];
      blocks := map[];
      for i := 0 to |AllTypes|
        invariant Valid()
        invariant Scan(cursor, payload, blocks) == ScanPrefix(buffer, present, i)
        invariant AppendedPoints(old(series), series, time, blocks)
      {
        var t := AllTypes[i];
        EntryIndex(i);
        NotYetConsumed(buffer, present, i, t);
        ghost var before, oldBlocks := series, blocks;
        payload, blocks := ParseBlock(t, present, time, payload, blocks);
        assert Scan(cursor, payload, blocks) == ScanPrefix(buffer, present, i + 1);
        if t in blocks {
          StoredStep(old(series), before, series, time, oldBlocks, t, blocks[t]);
        }
      }
    }

    /**
     * One pass of the flag loop, for catalog entry `t`: when the flag is among the
     * mask's flags and its block fits, the block is consumed and stored.
     */
    method ParseBlock(t: PacketType, present: seq<nat>, time: Word, payload: seq<byte>, blocks: map<PacketType, seq<byte>>)
      returns (payload': seq<byte>, blocks': map<PacketType, seq<byte>>)
      requires Valid() && cursor <= |buffer| && WellFormed(blocks) && t !in blocks
      modifies this`cursor, this`series
      ensures Valid()
      ensures Scan(cursor, payload', blocks') == ScanStep(buffer, present, Scan(old(cursor), payload, blocks), t)
      ensures blocks' == blocks || (t in blocks' && blocks' == blocks[t := blocks'[t]])
      ensures blocks' == blocks ==> series == old(series)
      ensures t in blocks' ==> |blocks'[t]| == PayloadSize(t)
      ensures t in blocks' ==>
        forall c :: IsChannel(c) ==> series[c] == old(series)[c] + BlockPoints(c, t, time, blocks'[t])
    {
      payload', blocks' := payload, blocks;
      if Flag(t) in present && |buffer| - cursor >= PayloadSize(t) {
        var bytes := buffer[cursor..cursor + PayloadSize(t)];
        cursor := cursor + PayloadSize(t);
        payload' := payload + bytes;
        blocks' := blocks[t := bytes];
        StoreBlock(t, time, bytes);
      }
    }

    /**
     * The unpack and the if/elif chain that follows it: a stored type's fields are
     * appended to its lists, and any other type's block is dropped.
     */
    method StoreBlock(t: PacketType, time: Word, bytes: seq<byte>)
      requires Valid() && |bytes| == PayloadSize(t)
      modifies this`series
      ensures Valid()
      ensures forall c :: IsChannel(c) ==> series[c] == old(series)[c] + BlockPoints(c, t, time, bytes)
    {
      var values := UnpackValues(t, bytes);
      if Routed(t) {
        ChannelsFit(t);
        StorePacketData(Channels(t), time, values);
        forall c | IsChannel(c)
          ensures Hits(c, Channels(t), time, values, ChannelCount(t)) == BlockPoints(c, t, time, bytes)
        {
          RoutedHits(c, t, time, bytes);
        }
      }
    }

    /**
     * The parse-and-commit body of `update`, with the bytes read from the port passed
     * in as `newBytes`. The result says how the call ended.
     */
    method Update(newBytes: seq<byte>) returns (outcome: Outcome)
      requires Valid()
      modifies this
      ensures Valid()
      ensures var a := Step(old(buffer) + newBytes, old(cursor));
        && outcome == a.outcome && buffer == a.buffer && cursor == a.cursor
        && forall c :: IsChannel(c) ==> series[c] == old(series)[c] + Points(c, a.time, a.blocks)
    {
      buffer := buffer + newBytes;
      if |buffer| <= 10 {
        return Idle;
      }
      cursor := 0;
      var typesBytes := buffer[cursor..cursor + 2];
      var mask := Int16Value(typesBytes[0], typesBytes[1]);
      if mask < 0 {
        // list(get_packet_types(mask)) never returns.
        return Hang;
      }
      outcome := ParseFrame(mask);
    }

    /**
     * The rest of an attempt once the mask `mask` has been read and found
     * non-negative: its flags, the timestamp, the flag loop, the footer and the commit.
     */
    method ParseFrame(mask: int) returns (outcome: Outcome)
      requires Valid() && |buffer| > 10 && cursor == 0
      requires mask == Int16Value(buffer[0], buffer[1]) >= 0
      modifies this`buffer, this`cursor, this`series
      ensures Valid()
      ensures var a := Commit(old(buffer), FullScan(old(buffer)));
        && outcome == a.outcome && buffer == a.buffer && cursor == a.cursor
        && forall c :: IsChannel(c) ==> series[c] == old(series)[c] + Points(c, a.time, a.blocks)
    {
      var typesBytes := buffer[cursor..cursor + 2];
      var present := PacketTypes(mask);
      cursor := cursor + 2;
      var timeBytes: Word := buffer[cursor..cursor + 4];
      cursor := cursor + 4;
      var payload, blocks := ParseBlocks(present, timeBytes);
      outcome := CommitFrame(typesBytes, timeBytes, payload, blocks);
    }

    /**
     * The end of an attempt whose flag loop left the cursor after the payload `payload`:
     * the footer is read and the CRC over the header and payload compared with it.
     */
    method CommitFrame(typesBytes: seq<byte>, timeBytes: Word, payload: seq<byte>, blocks: map<PacketType, seq<byte>>)
      returns (outcome: Outcome)
      requires HeaderSize <= cursor <= |buffer| && WellFormed(blocks)
      requires typesBytes == buffer[..2] && timeBytes == buffer[2..6]
      modifies this`buffer, this`cursor
      ensures var a := Commit(old(buffer), Scan(old(cursor), payload, blocks));
        outcome == a.outcome && buffer == a.buffer && cursor == a.cursor
    {
      ghost var a := Commit(buffer, Scan(cursor, payload, blocks));
      if |buffer| - cursor < 4 {
        // The checksum check reads `packet_checksum`, which was never bound.
        return MissingFooter;
      }
      var checksumBytes := buffer[cursor..cursor + 4];
      var checksum := Int32Value(checksumBytes);
      cursor := cursor + 4;
      var covered := typesBytes + timeBytes + payload;
      if Checksum(covered) == checksum {
        assert a.outcome == Accepted;
        buffer := buffer[cursor..];
        cursor := 0;
        outcome := Accepted;
      } else {
        assert a.outcome == Rejected;
        buffer := buffer[1..];
        cursor := 0;
        outcome := Rejected;
      }
    }
  }

  // ---------------------------------------------------------------- helpers of Update

  /** The tuple for type `t` adds exactly field `c.field` to each of `t`'s lists. */
  lemma {:induction false} ChannelsHits(c: Channel, t: PacketType, time: Word, payload: seq<Value>, k: nat)
    requires k <= ChannelCount(t) <= |payload|
    ensures Hits(c, Channels(t), time, payload, k) ==
      if c.kind == t && c.field < k then [Point(time, payload[c.field])] else []
    decreases k
  {
    if k > 0 {
      ChannelsHits(c, t, time, payload, k - 1);
    }
  }

  /** Every list of `series` is its list in `base` followed by the points `blocks` add to it. */
  ghost predicate AppendedPoints(base: map<Channel, seq<Point>>, series: map<Channel, seq<Point>>, time: Word,
                                 blocks: map<PacketType, seq<byte>>)
    requires WellFormed(blocks)
  {
    forall c :: IsChannel(c) ==> c in base && c in series && series[c] == base[c] + Points(c, time, blocks)
  }

  /** Storing the block of a type not yet consumed keeps `AppendedPoints` with that block added. */
  lemma StoredStep(base: map<Channel, seq<Point>>, before: map<Channel, seq<Point>>, after: map<Channel, seq<Point>>,
                   time: Word, blocks: map<PacketType, seq<byte>>, t: PacketType, bytes: seq<byte>)
    requires WellFormed(blocks) && t !in blocks && |bytes| == PayloadSize(t)
    requires AppendedPoints(base, before, time, blocks)
    requires forall c :: IsChannel(c) ==> c in after && after[c] == before[c] + BlockPoints(c, t, time, bytes)
    ensures AppendedPoints(base, after, time, blocks[t := bytes])
  {
    forall c | IsChannel(c)
      ensures after[c] == base[c] + Points(c, time, blocks[t := bytes])
    {
      StoredChannel(base[c], before[c], after[c], c, time, blocks, t, bytes);
    }
  }

  /** `StoredStep` for the one list `c`, whose contents are `prior`, `mid` and `next` in turn. */
  lemma StoredChannel(prior: seq<Point>, mid: seq<Point>, next: seq<Point>, c: Channel, time: Word,
                      blocks: map<PacketType, seq<byte>>, t: PacketType, bytes: seq<byte>)
    requires IsChannel(c) && WellFormed(blocks) && t !in blocks && |bytes| == PayloadSize(t)
    requires mid == prior + Points(c, time, blocks)
    requires next == mid + BlockPoints(c, t, time, bytes)
    ensures next == prior + Points(c, time, blocks[t := bytes])
  {
    StoredPoints(c, t, time, blocks, bytes);
  }

  /** Storing a block of a stored type appends to each list exactly what `BlockPoints` says. */
  lemma RoutedHits(c: Channel, t: PacketType, time: Word, bytes: seq<byte>)
    requires IsChannel(c) && Routed(t) && |bytes| == PayloadSize(t)
    ensures Hits(c, Channels(t), time, UnpackValues(t, bytes), ChannelCount(t)) == BlockPoints(c, t, time, bytes)
  {
    var values := UnpackValues(t, bytes);
    ChannelsFit(t);
    ChannelsHits(c, t, time, values, ChannelCount(t));
  }

  /**
   * Adding a block for a type not yet consumed adds that block's point to the type's
   * stored lists and leaves every other list's points as they were.
   */
  lemma StoredPoints(c: Channel, t: PacketType, time: Word, blocks: map<PacketType, seq<byte>>, bytes: seq<byte>)
    requires IsChannel(c) && WellFormed(blocks) && t !in blocks && |bytes| == PayloadSize(t)
    ensures Points(c, time, blocks[t := bytes]) == Points(c, time, blocks) + BlockPoints(c, t, time, bytes)
  {
  }
}
