/**
 * `create_packet` of serial_test/packet_util.py: a frame is the mask as a big-endian
 * int16, the 4-byte timestamp, one payload block per catalog flag set in the mask
 * (ascending flag order, values taken from `data` left to right) and the CRC-16 of
 * all of that as a big-endian int32.
 */
module Encoder {
  import opened Wire
  import opened Results
  import opened Bits
  import opened Fields
  import opened Catalog
  import opened Crc16

  /**
   * One `struct.pack(PAYLOAD_FORMAT[flag], data[idx], data[idx + 1], ...)` call of the
   * if/elif chain. The arguments are indexed before packing, so a short tuple raises
   * IndexError before any value is checked.
   */
  function PackBlock(t: PacketType, data: seq<Value>, idx: nat): (r: Result<seq<byte>, EncodeError>)
    ensures idx + FieldCount(t) > |data| ==> r == Err(MissingValue)
    ensures r.Ok? ==> idx + FieldCount(t) <= |data| && |r.value| == PayloadSize(t)
  {
    var n := FieldCount(t);
    if idx + n > |data| then Err(MissingValue) else PackValues(t, data[idx..idx + n])
  }


  /** Unpacking a block gives back the values it was packed from, normalized to their codes. */
  lemma PackBlockUnpacks(t: PacketType, data: seq<Value>, idx: nat)
    requires PackBlock(t, data, idx).Ok?
    ensures idx + FieldCount(t) <= |data|
    ensures forall j :: 0 <= j < FieldCount(t) ==>
      UnpackValues(t, PackBlock(t, data, idx).value)[j] == Normalized(Codes(t)[j], data[idx + j])
  {
    UnpackPack(Codes(t), data[idx..idx + FieldCount(t)]);
  }

  /**
   * One pass of the loop over the yielded flags, with `body` packed and `idx` values
   * consumed so far: a flag with a catalog branch appends its block and advances the
   * data index by its field count; any other flag does nothing.
   */
  function FlagStep(f: nat, data: seq<Value>, body: seq<byte>, idx: nat): Result<(seq<byte>, nat), EncodeError>
  {
    match TypeOfFlag(f)
    case None => Ok((body, idx))
    case Some(t) => BlockStep(t, data, body, idx)
  }

  /** The branch for catalog entry `t`: append its block and advance the data index. */
  function BlockStep(t: PacketType, data: seq<Value>, body: seq<byte>, idx: nat): Result<(seq<byte>, nat), EncodeError>
  {
    match PackBlock(t, data, idx)
    case Err(e) => Err(e)
    case Ok(block) => Ok((body + block, idx + FieldCount(t)))
  }

  /** The loop over `flags`, from an empty body and data index 0; the first error wins. */
  function EncodeBlocks(flags: seq<nat>, data: seq<Value>): Result<(seq<byte>, nat), EncodeError>
    decreases |flags|
  {
    if flags == [] then Ok(([], 0))
    else
      match EncodeBlocks(flags[..|flags| - 1], data)
      case Err(e) => Err(e)
      case Ok((body, idx)) => FlagStep(flags[|flags| - 1], data, body, idx)
  }

  /**
   * `create_packet(types, time, data)` for a non-negative mask (a negative one makes
   * `get_packet_types` run forever). A mask above 32767 does not fit the '>h' header.
   */
  function Encode(types: int, time: Word, data: seq<Value>): (r: Result<seq<byte>, EncodeError>)
    requires types >= 0
    ensures types > 0x7FFF <==> r == Err(MaskOutOfRange)
    ensures r.Ok? ==> |r.value| >= 10
  {
    if types > 0x7FFF then Err(MaskOutOfRange)
    else
      var header := Int16Bytes(types) + time;
      match EncodeBlocks(SetBits(types), data)
      case Err(e) => EncodeBlocksError(SetBits(types), data); Err(e)
      case Ok((body, _)) => Ok(header + body + Int32Bytes(Checksum(header + body)))
  }

  /**
   * `create_packet(types, time, data)`: the header, the body from the loop over the
   * yielded flags, and the checksum footer.
   */
  method CreatePacket(types: int, time: Word, data: seq<Value>) returns (r: Result<seq<byte>, EncodeError>)
    requires types >= 0
    ensures r == Encode(types, time, data)
  {
    if types > 0x7FFF {
      return Err(MaskOutOfRange);
    }
    var header := Int16Bytes(types) + time;
    var flags := PacketTypes(types);
    var packed := PackBody(flags, data);
    if packed.Err? {
      return Err(packed.error);
    }
    var body := packed.value.0;
    var checksum := Checksum(header + body);
    var footer := Int32Bytes(checksum);
    r := Ok(header + body + footer);
  }

  /**
   * The `for type_flag in type_flags` loop of `create_packet`, which grows `body` and
   * advances `idx_data`; it returns the body and the final data index.
   */
  method PackBody(flags: seq<nat>, data: seq<Value>) returns (r: Result<(seq<byte>, nat), EncodeError>)
    ensures r == EncodeBlocks(flags, data)
  {
    var body: seq<byte> := [];
    var idx: nat := 0;
    for k := 0 to |flags|
      invariant EncodeBlocks(flags[..k], data) == Ok((body, idx))
    {
      assert flags[..k + 1][..k] == flags[..k];
      var step := PackFlag(flags[k], data, body, idx);
      if step.Err? {
        EncodeBlocksErrorSticks(flags, data, k + 1);
        return Err(step.error);
      }
      body, idx := step.value.0, step.value.1;
    }
    assert flags[..|flags|] == flags;
    r := Ok((body, idx));
  }

  /** One pass of that loop: the if/elif chain on the flag. */
  method PackFlag(f: nat, data: seq<Value>, body: seq<byte>, idx: nat) returns (r: Result<(seq<byte>, nat), EncodeError>)
    ensures r == FlagStep(f, data, body, idx)
  {
    var t := TypeOfFlag(f);
    if t.None? {
      return Ok((body, idx));
    }
    var block := PackBlock(t.value, data, idx);
    if block.Err? {
      return Err(block.error);
    }
    r := Ok((body + block.value, idx + FieldCount(t.value)));
  }

  // ---------------------------------------------------------------- the loop, piece by piece

  /** Once a prefix of the flags fails, the whole loop fails with the same error. */
  lemma {:induction false} EncodeBlocksErrorSticks(flags: seq<nat>, data: seq<Value>, k: nat)
    requires k <= |flags| && EncodeBlocks(flags[..k], data).Err?
    ensures EncodeBlocks(flags, data) == EncodeBlocks(flags[..k], data)
    decreases |flags| - k
  {
    if k < |flags| {
      assert flags[..k + 1][..k] == flags[..k];
      EncodeBlocksErrorSticks(flags, data, k + 1);
    } else {
      assert flags[..k] == flags;
    }
  }

  /** An error is never the mask error, which only the header raises. */
  lemma {:induction false} EncodeBlocksError(flags: seq<nat>, data: seq<Value>)
    ensures EncodeBlocks(flags, data) != Err(MaskOutOfRange)
    decreases |flags|
  {
    if flags != [] {
      var init := flags[..|flags| - 1];
      EncodeBlocksError(init, data);
      match EncodeBlocks(init, data)
      case Err(e) =>
      case Ok((body, idx)) => FlagStepError(flags[|flags| - 1], data, body, idx);
    }
  }

  lemma FlagStepError(f: nat, data: seq<Value>, body: seq<byte>, idx: nat)
    ensures FlagStep(f, data, body, idx) != Err(MaskOutOfRange)
  {
    match TypeOfFlag(f)
    case None =>
    case Some(t) =>
      if idx + FieldCount(t) <= |data| {
        PackNeverMaskError(Codes(t), data[idx..idx + FieldCount(t)]);
      }
  }

  lemma {:induction false} PackNeverMaskError(codes: string, vals: seq<Value>)
    requires IsLayout(codes) && |vals| == |codes|
    ensures Pack(codes, vals) != Err(MaskOutOfRange)
    decreases |codes|
  {
    if codes != [] {
      PackNeverMaskError(codes[1..], vals[1..]);
    }
  }

  /** Flags without a catalog branch, run after `xs`, add no bytes and consume no values. */
  lemma {:induction false} UnlistedFlagsAddNothing(xs: seq<nat>, ys: seq<nat>, data: seq<Value>)
    requires forall y :: y in ys ==> TypeOfFlag(y).None?
    ensures EncodeBlocks(xs + ys, data) == EncodeBlocks(xs, data)
    decreases |ys|
  {
    if ys == [] {
      assert xs + ys == xs;
    } else {
      var init := ys[..|ys| - 1];
      assert (xs + ys)[..|xs + ys| - 1] == xs + init;
      assert ys[|ys| - 1] in ys;
      UnlistedFlagsAddNothing(xs, init, data);
    }
  }

  // ---------------------------------------------------------------- the body in catalog order

  /**
   * The body in catalog order: the blocks of the catalog entries below position `k`
   * whose bit is set in `m`, packed from consecutive data values; the first error wins.
   */
  function EncodePrefix(m: nat, data: seq<Value>, k: nat): Result<(seq<byte>, nat), EncodeError>
    requires k <= |AllTypes|
    decreases k
  {
    if k == 0 then Ok(([], 0))
    else
      match EncodePrefix(m, data, k - 1)
      case Err(e) => Err(e)
      case Ok((body, idx)) =>
        if Bit(m, k - 1) then BlockStep(AllTypes[k - 1], data, body, idx) else Ok((body, idx))
  }

  /** The loop over the set catalog flags of `m`, lowest first, builds the catalog-order body. */
  lemma EncodePrefixIsLoop(m: nat, data: seq<Value>, k: nat)
    requires k <= |AllTypes|
    ensures EncodeBlocks(LowBits(m, k), data) == EncodePrefix(m, data, k)
  {
    LoopAgreesUpTo(m, data, k);
  }

  /** The loop over the flags of the low `k` bits agrees with the catalog recursion. */
  predicate LoopAgrees(m: nat, data: seq<Value>, k: nat)
    requires k <= |AllTypes|
  {
    EncodeBlocks(LowBits(m, k), data) == EncodePrefix(m, data, k)
  }

  lemma {:induction false} LoopAgreesUpTo(m: nat, data: seq<Value>, k: nat)
    requires k <= |AllTypes|
    ensures LoopAgrees(m, data, k)
    decreases k
  {
    if k > 0 {
      LoopAgreesUpTo(m, data, k - 1);
      LoopStep(m, data, k - 1);
    }
  }

  /** One more catalog position adds the same pass to the loop and to the catalog recursion. */
  lemma LoopStep(m: nat, data: seq<Value>, k: nat)
    requires k < |AllTypes|
    requires LoopAgrees(m, data, k)
    ensures LoopAgrees(m, data, k + 1)
  {
    var low := LowBits(m, k);
    var r := EncodePrefix(m, data, k);
    if Bit(m, k) {
      var t := AllTypes[k];
      EntryIndex(k);
      assert LowBits(m, k + 1) == low + [Flag(t)];
      AppendCatalogFlag(low, t, data);
      assert EncodePrefix(m, data, k + 1) == if r.Err? then r else BlockStep(t, data, r.value.0, r.value.1);
    } else {
      assert LowBits(m, k + 1) == low;
      assert EncodePrefix(m, data, k + 1) == r;
    }
  }

  /** A catalog flag at the end of the loop runs that entry's branch after the rest. */
  lemma AppendCatalogFlag(flags: seq<nat>, t: PacketType, data: seq<Value>)
    ensures var r := EncodeBlocks(flags, data);
      EncodeBlocks(flags + [Flag(t)], data) == if r.Err? then r else BlockStep(t, data, r.value.0, r.value.1)
  {
    var next := flags + [Flag(t)];
    assert next[..|next| - 1] == flags;
    match EncodeBlocks(flags, data)
    case Err(_) =>
    case Ok((body, idx)) => CatalogFlagStep(t, data, body, idx);
  }

  /**
   * The pass for the flag of catalog entry `t` packs `t`'s block from the current data
   * index and advances that index by `t`'s field count.
   */
  lemma CatalogFlagStep(t: PacketType, data: seq<Value>, body: seq<byte>, idx: nat)
    ensures FlagStep(Flag(t), data, body, idx) == BlockStep(t, data, body, idx)
  {
    TypeOfFlagInverts(t);
  }

  /** Mask bits 12 to 14 have no catalog entry, so the body is the catalog prefix. */
  lemma EncodeUsesCatalogBits(m: nat, data: seq<Value>)
    requires m <= 0x7FFF
    ensures EncodeBlocks(SetBits(m), data) == EncodePrefix(m, data, |AllTypes|)
  {
    EncodePrefixIsLoop(m, data, |AllTypes|);
    SetBitsSplit(m, 12);
    var high := BitsFrom(Shr(m, 12), 12);
    HighFlagsUnlisted(Shr(m, 12), 12);
    UnlistedFlagsAddNothing(LowBits(m, 12), high, data);
  }

  /** Flags from bit 12 up select no catalog entry. */
  lemma {:induction false} HighFlagsUnlisted(n: nat, k: nat)
    requires k >= 12
    ensures forall x :: x in BitsFrom(n, k) ==> TypeOfFlag(x).None?
    decreases n
  {
    if n != 0 {
      BitsFromUnfold(n, k);
      HighFlagsUnlisted(n / 2, k + 1);
      TypeOfPow2(k);
    }
  }

  /** Bytes of the payload blocks of the catalog entries below position `k` set in `m`. */
  function CatalogSize(m: int, k: nat): nat
    requires k <= |AllTypes|
  {
    if k == 0 then 0
    else CatalogSize(m, k - 1) + (if Bit(m, k - 1) then PayloadSize(AllTypes[k - 1]) else 0)
  }

  /** Data values the catalog entries below position `k` set in `m` consume. */
  function CatalogFields(m: int, k: nat): nat
    requires k <= |AllTypes|
  {
    if k == 0 then 0
    else CatalogFields(m, k - 1) + (if Bit(m, k - 1) then FieldCount(AllTypes[k - 1]) else 0)
  }

  /**
   * A prefix through entry `k` that succeeded extends the one before it: by entry
   * `k`'s block when bit `k` is set, and by nothing when it is clear.
   */
  lemma EncodePrefixEntry(m: nat, data: seq<Value>, k: nat)
    requires k < |AllTypes| && EncodePrefix(m, data, k + 1).Ok?
    ensures EncodePrefix(m, data, k).Ok?
    ensures var (body, idx) := EncodePrefix(m, data, k).value;
      && (Bit(m, k) ==> PackBlock(AllTypes[k], data, idx).Ok?)
      && EncodePrefix(m, data, k + 1).value.0 == body + (if Bit(m, k) then PackBlock(AllTypes[k], data, idx).value else [])
  {
    var (body, idx) := EncodePrefix(m, data, k).value;
    if Bit(m, k) {
      BlockStepOk(AllTypes[k], data, body, idx);
    }
  }

  /** A block step that succeeded appended the packed block to the body. */
  lemma BlockStepOk(t: PacketType, data: seq<Value>, body: seq<byte>, idx: nat)
    requires BlockStep(t, data, body, idx).Ok?
    ensures PackBlock(t, data, idx).Ok?
    ensures BlockStep(t, data, body, idx).value.0 == body + PackBlock(t, data, idx).value
  {
  }

  /**
   * The same step seen from the bytes alone: with bit `k` set the body grows by
   * exactly entry `k`'s payload size, and with it clear the body stays as it was.
   */
  lemma EncodePrefixGrows(m: nat, data: seq<Value>, k: nat)
    requires k < |AllTypes| && EncodePrefix(m, data, k + 1).Ok?
    ensures EncodePrefix(m, data, k).Ok?
    ensures var body := EncodePrefix(m, data, k).value.0;
      var next := EncodePrefix(m, data, k + 1).value.0;
      && (Bit(m, k) ==> body <= next && |next| == |body| + PayloadSize(AllTypes[k]))
      && (!Bit(m, k) ==> next == body)
  {
    EncodePrefixEntry(m, data, k);
  }

  /**
   * The bytes entry `k` adds to the body are the block packed from the data values at
   * index `CatalogFields(m, k)`.
   */
  lemma EntryBlock(m: nat, data: seq<Value>, k: nat)
    requires k < |AllTypes| && EncodePrefix(m, data, k + 1).Ok? && Bit(m, k)
    ensures EncodePrefix(m, data, k).Ok?
    ensures var body := EncodePrefix(m, data, k).value.0;
      var next := EncodePrefix(m, data, k + 1).value.0;
      |body| <= |next| && PackBlock(AllTypes[k], data, CatalogFields(m, k)) == Ok(next[|body|..])
  {
    EncodePrefixEntry(m, data, k);
    EncodePrefixShape(m, data, k);
    var body := EncodePrefix(m, data, k).value.0;
    var block := PackBlock(AllTypes[k], data, EncodePrefix(m, data, k).value.1).value;
    assert (body + block)[|body|..] == block;
  }

  /**
   * In a body that was packed whole, each entry whose bit is set was packed from the
   * data values the entries before it left, at index `CatalogFields`.
   */
  lemma EntryPacked(m: nat, data: seq<Value>, t: PacketType)
    requires EncodePrefix(m, data, |AllTypes|).Ok? && Bit(m, Index(t))
    ensures PackBlock(t, data, CatalogFields(m, Index(t))).Ok?
  {
    var k := Index(t);
    IndexEntry(t);
    EncodePrefixExtends(m, data, k + 1, |AllTypes|);
    EncodePrefixEntry(m, data, k);
    EncodePrefixShape(m, data, k);
  }

  /** A prefix that succeeded has packed `CatalogSize` bytes from `CatalogFields` values. */
  lemma {:induction false} EncodePrefixShape(m: nat, data: seq<Value>, k: nat)
    requires k <= |AllTypes| && EncodePrefix(m, data, k).Ok?
    ensures |EncodePrefix(m, data, k).value.0| == CatalogSize(m, k)
    ensures EncodePrefix(m, data, k).value.1 == CatalogFields(m, k)
    decreases k
  {
    if k > 0 {
      EncodePrefixShape(m, data, k - 1);
    }
  }

  /** Every shorter prefix of a prefix that succeeded succeeded too, with a body it extends. */
  lemma {:induction false} EncodePrefixExtends(m: nat, data: seq<Value>, j: nat, k: nat)
    requires j <= k <= |AllTypes| && EncodePrefix(m, data, k).Ok?
    ensures EncodePrefix(m, data, j).Ok?
    ensures EncodePrefix(m, data, j).value.0 <= EncodePrefix(m, data, k).value.0
    decreases k
  {
    if j < k {
      EncodePrefixExtends(m, data, j, k - 1);
    }
  }

  // ---------------------------------------------------------------- the frame

  /** The frame is 10 bytes plus the payload size of every catalog flag set in the mask. */
  lemma EncodedLength(types: int, time: Word, data: seq<Value>)
    requires 0 <= types && Encode(types, time, data).Ok?
    ensures |Encode(types, time, data).value| == 6 + CatalogSize(types, |AllTypes|) + 4
  {
    EncodeValue(types, time, data);
    EncodePrefixShape(types, data, 12);
  }

  /** The frame `Encode` builds, spelled out with the catalog-ordered body. */
  lemma EncodeValue(types: int, time: Word, data: seq<Value>)
    requires 0 <= types && Encode(types, time, data).Ok?
    ensures types <= 0x7FFF && EncodePrefix(types, data, |AllTypes|).Ok?
    ensures var header := Int16Bytes(types) + time;
      var body := EncodePrefix(types, data, |AllTypes|).value.0;
      Encode(types, time, data).value == header + body + Int32Bytes(Checksum(header + body))
  {
    EncodeUsesCatalogBits(types, data);
  }

  /**
   * The frame starts with the mask as a big-endian int16 and the timestamp; its body
   * is the catalog-ordered blocks; its last four bytes are the CRC-16 of everything
   * before them as a big-endian int32, so the first two of them are zero.
   */
  lemma FrameLayout(types: int, time: Word, data: seq<Value>)
    requires 0 <= types && Encode(types, time, data).Ok?
    ensures var frame := Encode(types, time, data).value;
      var n := |frame|;
      var crc := Checksum(frame[..n - 4]);
      && types <= 0x7FFF
      && frame[..2] == Int16Bytes(types)
      && Int16Value(frame[0], frame[1]) == types
      && frame[2..6] == time
      && EncodePrefix(types, data, |AllTypes|).Ok?
      && frame[6..n - 4] == EncodePrefix(types, data, |AllTypes|).value.0
      && frame[n - 4..] == [0, 0, crc / 0x100, crc % 0x100]
      && Int32Value(frame[n - 4..]) == crc
  {
    EncodeValue(types, time, data);
    var body := EncodePrefix(types, data, 12).value.0;
    var crc := Checksum(Int16Bytes(types) + time + body);
    FrameSlices(Int16Bytes(types), time, body, Int32Bytes(crc));
    Int32SmallValue(Int32Bytes(crc), crc);
  }

  /** Where the parts of a frame sit in it. */
  lemma FrameSlices(mask: seq<byte>, time: Word, body: seq<byte>, footer: Word)
    requires |mask| == 2
    ensures var frame := mask + time + body + footer;
      var n := |frame|;
      && frame[..2] == mask && frame[2..6] == time && frame[6..n - 4] == body
      && frame[..n - 4] == mask + time + body && frame[n - 4..] == footer
  {
    var frame := mask + time + body + footer;
    var n := |frame|;
    assert frame[..2] == mask;
    assert frame[2..6] == time;
    assert frame[6..n - 4] == body;
    assert frame[..n - 4] == mask + time + body;
    assert frame[n - 4..] == footer;
  }
}
