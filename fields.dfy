/**
 * One payload field as Python's `struct` packs and unpacks it with the format
 * characters the catalog uses: '?' (bool, 1 byte), 'h' (int16, 2 bytes) and
 * 'f' (float32, 4 bytes, kept as raw bits).
 */
module Fields {
  import opened Wire
  import opened Results

  /**
   * A Python value given to `struct.pack` or returned by `struct.unpack`.
   * FloatV carries the four big-endian bytes of the single-precision value.
   */
  datatype Value = BoolV(b: bool) | IntV(i: int) | FloatV(bits: Word)

  /**
   * Why `create_packet` raises: the mask does not fit '>h' (struct.error), the data
   * tuple is too short (IndexError), a value does not fit its field (struct.error),
   * or an int was given for a float field, whose conversion the model leaves out.
   */
  datatype EncodeError = MaskOutOfRange | MissingValue | BadValue | IntAsFloat

  /** The bit patterns of 1.0 and 0.0 as big-endian singles. */
  const FloatOne: Word := [0x3F, 0x80, 0, 0]
  const FloatZero: Word := [0, 0, 0, 0]

  predicate IsCode(c: char)
  {
    c == '?' || c == 'h' || c == 'f'
  }

  /** A sequence of field codes, as in a format string after its byte-order prefix. */
  predicate IsLayout(codes: string)
  {
    forall i :: 0 <= i < |codes| ==> IsCode(codes[i])
  }

  /** `struct.calcsize` of one standard-size code. */
  function CodeWidth(c: char): nat
  {
    if c == '?' then 1 else if c == 'h' then 2 else if c == 'f' then 4 else 0
  }

  /** `struct.calcsize` of a layout. */
  function Width(codes: string): nat
  {
    if codes == [] then 0 else CodeWidth(codes[0]) + Width(codes[1..])
  }

  /** Python truthiness, which '?' packs: zero, False and ±0.0 are false; NaN is true. */
  predicate Truthy(v: Value)
  {
    match v
    case BoolV(b) => b
    case IntV(i) => i != 0
    case FloatV(w) => w[0] % 0x80 != 0 || w[1] != 0 || w[2] != 0 || w[3] != 0
  }

  /** The value's type is the one `struct.unpack` returns for `code`. */
  predicate Native(code: char, v: Value)
  {
    (code == '?' && v.BoolV?) || (code == 'h' && v.IntV?) || (code == 'f' && v.FloatV?)
  }

  /** `struct.pack('>' + code, v)`. */
  function PackField(code: char, v: Value): (r: Result<seq<byte>, EncodeError>)
    requires IsCode(code)
    ensures r.Ok? ==> |r.value| == CodeWidth(code)
    ensures Native(code, v) ==> (r.Ok? <==> !(v.IntV? && !(-0x8000 <= v.i < 0x8000)))
    ensures code == '?' ==> r.Ok?
  {
    if code == '?' then
      Ok([if Truthy(v) then 1 else 0])
    else if code == 'h' then
      match v
      case BoolV(b) => Ok(Int16Bytes(if b then 1 else 0))
      case IntV(i) => if -0x8000 <= i < 0x8000 then Ok(Int16Bytes(i)) else Err(BadValue)
      case FloatV(_) => Err(BadValue)
    else
      match v
      case BoolV(b) => Ok(if b then FloatOne else FloatZero)
      case IntV(_) => Err(IntAsFloat)
      case FloatV(w) => Ok(w)
  }

  /** `struct.unpack('>' + code, bytes)[0]`. */
  function UnpackField(code: char, bytes: seq<byte>): (v: Value)
    requires IsCode(code) && |bytes| == CodeWidth(code)
    ensures Native(code, v)
  {
    if code == '?' then BoolV(bytes[0] != 0)
    else if code == 'h' then IntV(Int16Value(bytes[0], bytes[1]))
    else FloatV(bytes)
  }

  /**
   * What `struct` hands back for a value it packed with `code`: its truthiness for
   * '?', a bool widened to 0/1 for 'h' and to 1.0/0.0 for 'f', else the value itself.
   */
  function Normalized(code: char, v: Value): (r: Value)
    requires IsCode(code)
    ensures Native(code, v) ==> r == v
  {
    if code == '?' then BoolV(Truthy(v))
    else match v
      case BoolV(b) =>
        if code == 'h' then IntV(if b then 1 else 0) else FloatV(if b then FloatOne else FloatZero)
      case _ => v
  }

  /** Unpacking what one code packed gives the value back, normalized to the code's type. */
  lemma UnpackPackField(code: char, v: Value)
    requires IsCode(code) && PackField(code, v).Ok?
    ensures UnpackField(code, PackField(code, v).value) == Normalized(code, v)
  {
    if code == 'h' {
      var i := if v.BoolV? then (if v.b then 1 else 0) else v.i;
      var b := Int16Bytes(i);
      assert PackField(code, v).value == b;
    }
  }

  /** `struct.pack('>' + codes, *vals)`: fields packed left to right; the first failure wins. */
  function Pack(codes: string, vals: seq<Value>): (r: Result<seq<byte>, EncodeError>)
    requires IsLayout(codes) && |vals| == |codes|
    ensures r.Ok? ==> |r.value| == Width(codes)
    decreases |codes|
  {
    if codes == [] then Ok([])
    else
      match PackField(codes[0], vals[0])
      case Err(e) => Err(e)
      case Ok(head) =>
        match Pack(codes[1..], vals[1..])
        case Err(e) => Err(e)
        case Ok(tail) => Ok(head + tail)
  }

  /** `struct.unpack('>' + codes, bytes)`. */
  function Unpack(codes: string, bytes: seq<byte>): (vals: seq<Value>)
    requires IsLayout(codes) && |bytes| == Width(codes)
    ensures |vals| == |codes|
    ensures forall i :: 0 <= i < |vals| ==> Native(codes[i], vals[i])
    decreases |codes|
  {
    if codes == [] then []
    else
      var w := CodeWidth(codes[0]);
      [UnpackField(codes[0], bytes[..w])] + Unpack(codes[1..], bytes[w..])
  }

  /**
   * Unpacking a packed block gives back every value, normalized to its code's type;
   * values that already have that type come back unchanged.
   */
  lemma {:induction false} UnpackPack(codes: string, vals: seq<Value>)
    requires IsLayout(codes) && |vals| == |codes| && Pack(codes, vals).Ok?
    ensures forall i :: 0 <= i < |codes| ==>
      Unpack(codes, Pack(codes, vals).value)[i] == Normalized(codes[i], vals[i])
    decreases |codes|
  {
    if codes != [] {
      var head := PackField(codes[0], vals[0]).value;
      var tail := Pack(codes[1..], vals[1..]).value;
      var bytes := Pack(codes, vals).value;
      assert bytes == head + tail;
      assert bytes[..CodeWidth(codes[0])] == head;
      assert bytes[CodeWidth(codes[0])..] == tail;
      UnpackPackField(codes[0], vals[0]);
      UnpackPack(codes[1..], vals[1..]);
      var r := Unpack(codes, bytes);
      forall i | 0 <= i < |codes|
        ensures r[i] == Normalized(codes[i], vals[i])
      {
        if i > 0 {
          assert r[i] == Unpack(codes[1..], tail)[i - 1];
        }
      }
    }
  }
}
