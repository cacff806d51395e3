/**
 * The fixed channel catalog of serial_test/packet_util.py: the twelve packet-type
 * flags, the payload size of each and its `struct` format.
 */
module Catalog {
  import opened Wire
  import opened Results
  import opened Bits
  import opened Fields

  datatype PacketType =
    | ArmStatus | Altitude | Acceleration | GpsCoordinates
    | BoardTemperature | BoardVoltage | BoardCurrent | BatteryVoltage
    | Magnetometer | Gyroscope | GpsSatellites | GpsGroundSpeed

  /** The catalog in ascending flag order: the order of the decoder's fixed list. */
  const AllTypes: seq<PacketType> := [
    ArmStatus, Altitude, Acceleration, GpsCoordinates,
    BoardTemperature, BoardVoltage, BoardCurrent, BatteryVoltage,
    Magnetometer, Gyroscope, GpsSatellites, GpsGroundSpeed
  ]

  /** The position of `t` in the catalog. */
  function Index(t: PacketType): (i: nat)
    ensures i < |AllTypes|
  {
    match t
    case ArmStatus => 0
    case Altitude => 1
    case Acceleration => 2
    case GpsCoordinates => 3
    case BoardTemperature => 4
    case BoardVoltage => 5
    case BoardCurrent => 6
    case BatteryVoltage => 7
    case Magnetometer => 8
    case Gyroscope => 9
    case GpsSatellites => 10
    case GpsGroundSpeed => 11
  }

  /** The `PACKET_TYPE_*` constant: bit `Index(t)` of the mask. */
  function Flag(t: PacketType): (f: nat)
    ensures f == Pow2(Index(t))
  {
    Pow2Table();
    match t
    case ArmStatus => 1
    case Altitude => 2
    case Acceleration => 4
    case GpsCoordinates => 8
    case BoardTemperature => 16
    case BoardVoltage => 32
    case BoardCurrent => 64
    case BatteryVoltage => 128
    case Magnetometer => 256
    case Gyroscope => 512
    case GpsSatellites => 1024
    case GpsGroundSpeed => 2048
  }

  /**
   * The field codes of `PAYLOAD_FORMAT[flag]`. Every format starts with '>', so all
   * fields are big-endian and unpadded; the codes are what follows that prefix.
   */
  function Codes(t: PacketType): (codes: string)
    ensures IsLayout(codes)
  {
    match t
    case ArmStatus => "???"
    case Altitude => "ff"
    case Acceleration => "fff"
    case GpsCoordinates => "ff"
    case BoardTemperature => "ffff"
    case BoardVoltage => "ffff"
    case BoardCurrent => "ffff"
    case BatteryVoltage => "fff"
    case Magnetometer => "fff"
    case Gyroscope => "fff"
    case GpsSatellites => "h"
    case GpsGroundSpeed => "f"
  }

  function FieldCount(t: PacketType): nat
  {
    |Codes(t)|
  }

  /** `PAYLOAD_SIZE[flag]`. */
  function PayloadSize(t: PacketType): (n: nat)
    ensures n > 0
  {
    match t
    case ArmStatus => 3
    case Altitude => 8
    case Acceleration => 12
    case GpsCoordinates => 8
    case BoardTemperature => 16
    case BoardVoltage => 16
    case BoardCurrent => 16
    case BatteryVoltage => 12
    case Magnetometer => 12
    case Gyroscope => 12
    case GpsSatellites => 2
    case GpsGroundSpeed => 4
  }

  /** Every `PAYLOAD_SIZE` entry is the byte width of the flag's format. */
  lemma PayloadWidth(t: PacketType)
    ensures PayloadSize(t) == Width(Codes(t))
  {
    LayoutWidths();
  }

  /** `struct.pack(PAYLOAD_FORMAT[flag], *vals)` for exactly as many values as the format has fields. */
  function PackValues(t: PacketType, vals: seq<Value>): (r: Result<seq<byte>, EncodeError>)
    requires |vals| == FieldCount(t)
    ensures r.Ok? ==> |r.value| == PayloadSize(t)
  {
    PayloadWidth(t);
    Pack(Codes(t), vals)
  }

  /** `struct.unpack(PAYLOAD_FORMAT[flag], block)` for a block of the flag's payload size. */
  function UnpackValues(t: PacketType, bytes: seq<byte>): (vals: seq<Value>)
    requires |bytes| == PayloadSize(t)
    ensures |vals| == FieldCount(t)
  {
    PayloadWidth(t);
    Unpack(Codes(t), bytes)
  }

  lemma LayoutWidths()
    ensures Width("?") == 1 && Width("??") == 2 && Width("???") == 3
    ensures Width("h") == 2 && Width("f") == 4 && Width("ff") == 8
    ensures Width("fff") == 12 && Width("ffff") == 16
  {
    assert "???"[1..] == "??" && "??"[1..] == "?" && "?"[1..] == "";
    assert "ffff"[1..] == "fff" && "fff"[1..] == "ff" && "ff"[1..] == "f" && "f"[1..] == "";
    assert "h"[1..] == "";
  }

  /**
   * The packet type a flag selects in `create_packet`'s if/elif chain; a flag with
   * no branch (a mask bit outside the catalog) selects none.
   */
  function TypeOfFlag(f: int): (r: Option<PacketType>)
    ensures r.Some? ==> Flag(r.value) == f
  {
    if f == 1 then Some(ArmStatus)
    else if f == 2 then Some(Altitude)
    else if f == 4 then Some(Acceleration)
    else if f == 8 then Some(GpsCoordinates)
    else if f == 16 then Some(BoardTemperature)
    else if f == 32 then Some(BoardVoltage)
    else if f == 64 then Some(BoardCurrent)
    else if f == 128 then Some(BatteryVoltage)
    else if f == 256 then Some(Magnetometer)
    else if f == 512 then Some(Gyroscope)
    else if f == 1024 then Some(GpsSatellites)
    else if f == 2048 then Some(GpsGroundSpeed)
    else None
  }

  /**
   * The flags are the distinct powers of two 1, 2, 4, ..., 2048, in catalog order,
   * so the i-th catalog entry owns bit i of the mask.
   */
  lemma CatalogFlags()
    ensures |AllTypes| == 12
    ensures forall i :: 0 <= i < |AllTypes| ==> Index(AllTypes[i]) == i && Flag(AllTypes[i]) == Pow2(i)
    ensures forall t, u :: Flag(t) == Flag(u) ==> t == u
    ensures forall t :: 1 <= Flag(t) <= 2048
  {
    CatalogOrder();
    FlagsDistinct();
  }

  lemma CatalogOrder()
    ensures forall i :: 0 <= i < |AllTypes| ==> Index(AllTypes[i]) == i
  {
    forall i | 0 <= i < |AllTypes|
      ensures Index(AllTypes[i]) == i
    {
      EntryIndex(i);
    }
  }

  /** Catalog entry `i` sits at position `i`: the entries are distinct. */
  lemma EntryIndex(i: nat)
    requires i < |AllTypes|
    ensures Index(AllTypes[i]) == i
  {
  }

  /** Every packet type is in the catalog, at position `Index(t)`. */
  lemma IndexEntry(t: PacketType)
    ensures AllTypes[Index(t)] == t
  {
  }

  lemma FlagsDistinct()
    ensures forall t, u :: Flag(t) == Flag(u) ==> t == u
  {
    forall t, u | Flag(t) == Flag(u)
      ensures t == u
    {
      Pow2Injective(Index(t), Index(u));
      IndexEntry(t);
      IndexEntry(u);
    }
  }

  /** Every catalog flag selects its own entry: the if/elif chain inverts `Flag`. */
  lemma TypeOfFlagInverts(t: PacketType)
    ensures TypeOfFlag(Flag(t)) == Some(t)
  {
  }

  /** The flag 2^k selects catalog entry k for k < 12, and nothing above. */
  lemma TypeOfPow2(k: nat)
    ensures TypeOfFlag(Pow2(k)) == if k < 12 then Some(AllTypes[k]) else None
  {
    if k < 12 {
      CatalogOrder();
      TypeOfFlagInverts(AllTypes[k]);
    } else {
      Pow2Table();
      if k > 12 {
        Pow2Monotonic(12, k);
      }
      assert Pow2(k) >= 4096;
    }
  }
}
