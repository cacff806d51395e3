/**
 * The port settings of data_controllers/serial_data_controller.py: their defaults,
 * `get_config`, which reports them as a dictionary, and `set_config`, which takes
 * each setting from a dictionary only when its key is present and its value passes
 * that setting's check.
 */
module SerialConfig {
  import opened Results

  /** A Python value as `set_config` inspects it. */
  datatype PyValue =
    | PyStr(s: string)
    | PyInt(i: int)
    | PyBool(b: bool)
    | PyFloat(f: real)
    | PyOther

  /** The number an int, bool or float stands for in a Python `==`. */
  function Numeric(v: PyValue): Option<real>
  {
    match v
    case PyInt(i) => Some(i as real)
    case PyBool(b) => Some(if b then 1.0 else 0.0)
    case PyFloat(f) => Some(f)
    case _ => None
  }

  /** Python `==` between two values: strings by content, numbers by value across types. */
  predicate PyEq(a: PyValue, b: PyValue)
  {
    if a.PyStr? || b.PyStr? then a.PyStr? && b.PyStr? && a.s == b.s
    else Numeric(a).Some? && Numeric(b).Some? && Numeric(a).value == Numeric(b).value
  }

  /** Python `v in options` for a list. */
  predicate InList(v: PyValue, options: seq<PyValue>)
  {
    exists o :: o in options && PyEq(v, o)
  }

  /** `serial.STOPBITS_ONE`, `STOPBITS_ONE_POINT_FIVE`, `STOPBITS_TWO`. */
  const StopBitsOptions: seq<PyValue> := [PyInt(1), PyFloat(1.5), PyInt(2)]

  /** `serial.PARITY_NONE`, `PARITY_EVEN`, `PARITY_ODD`, `PARITY_MARK`, `PARITY_SPACE`. */
  const ParityOptions: seq<PyValue> := [PyStr("N"), PyStr("E"), PyStr("O"), PyStr("M"), PyStr("S")]

  /** `serial.FIVEBITS` to `serial.EIGHTBITS`. */
  const ByteSizeOptions: seq<PyValue> := [PyInt(5), PyInt(6), PyInt(7), PyInt(8)]

  const NameKey := "port_name"
  const BaudKey := "port_baud_rate"
  const StopBitsKey := "port_stop_bits"
  const ParityKey := "port_parity"
  const ByteSizeKey := "port_byte_size"

  /** The five settings; stop bits, parity and byte size keep the very value they were given. */
  datatype Config = Config(name: string, baud: int, stopBits: PyValue, parity: PyValue, byteSize: PyValue)

  /** The settings `__init__` starts from. */
  const Defaults := Config("", 9600, PyInt(1), PyStr("N"), PyInt(8))

  /** Stop bits, parity and byte size each hold one of their options. */
  predicate ValidConfig(c: Config)
  {
    InList(c.stopBits, StopBitsOptions) && InList(c.parity, ParityOptions) && InList(c.byteSize, ByteSizeOptions)
  }

  /** `set_config`'s check for the port name: the value must be exactly a str. */
  predicate TakesName(config: map<string, PyValue>)
  {
    NameKey in config && config[NameKey].PyStr?
  }

  /** The check for the baud rate: exactly an int, so not a bool. */
  predicate TakesBaud(config: map<string, PyValue>)
  {
    BaudKey in config && config[BaudKey].PyInt?
  }

  /** The check for stop bits: equal to one of the stop-bit options. */
  predicate TakesStopBits(config: map<string, PyValue>)
  {
    StopBitsKey in config && InList(config[StopBitsKey], StopBitsOptions)
  }

  /** The check for parity: equal to one of the parity options. */
  predicate TakesParity(config: map<string, PyValue>)
  {
    ParityKey in config && InList(config[ParityKey], ParityOptions)
  }

  /** The check for byte size: equal to one of the byte-size options. */
  predicate TakesByteSize(config: map<string, PyValue>)
  {
    ByteSizeKey in config && InList(config[ByteSizeKey], ByteSizeOptions)
  }

  /** The settings after `set_config(config)` from `c`. */
  function ApplyConfig(c: Config, config: map<string, PyValue>): Config
  {
    Config(
      if TakesName(config) then config[NameKey].s else c.name,
      if TakesBaud(config) then config[BaudKey].i else c.baud,
      if TakesStopBits(config) then config[StopBitsKey] else c.stopBits,
      if TakesParity(config) then config[ParityKey] else c.parity,
      if TakesByteSize(config) then config[ByteSizeKey] else c.byteSize)
  }

  /** The dictionary `get_config` returns for settings `c`. */
  function ConfigDict(c: Config): (d: map<string, PyValue>)
    ensures d.Keys == {NameKey, BaudKey, StopBitsKey, ParityKey, ByteSizeKey}
  {
    map[NameKey := PyStr(c.name), BaudKey := PyInt(c.baud), StopBitsKey := c.stopBits,
        ParityKey := c.parity, ByteSizeKey := c.byteSize]
  }

  class SerialDataController {
    var portName: string
    var portBaudRate: int
    var portStopBits: PyValue
    var portParity: PyValue
    var portByteSize: PyValue

    function State(): Config
      reads this
    {
      Config(portName, portBaudRate, portStopBits, portParity, portByteSize)
    }

    constructor()
      ensures State() == Defaults && ValidConfig(State())
    {
      portName := "";
      portBaudRate := 9600;
      portStopBits := PyInt(1);
      portParity := PyStr("N");
      portByteSize := PyInt(8);
      assert PyInt(1) in StopBitsOptions && PyStr("N") in ParityOptions && PyInt(8) in ByteSizeOptions;
    }

    /** `get_config`: the five settings under their keys. */
    function GetConfig(): (d: map<string, PyValue>)
      reads this
      ensures d == ConfigDict(State())
      ensures ValidConfig(State()) ==> ApplyConfig(State(), d) == State()
    {
      ConfigRoundTrip(State());
      map[NameKey := PyStr(portName), BaudKey := PyInt(portBaudRate), StopBitsKey := portStopBits,
          ParityKey := portParity, ByteSizeKey := portByteSize]
    }

    /** `set_config`: one independent check and assignment per key. */
    method SetConfig(config: map<string, PyValue>)
      modifies this
      ensures State() == ApplyConfig(old(State()), config)
      ensures old(ValidConfig(State())) ==> ValidConfig(State())
    {
      ApplyKeepsValid(State(), config);
      ghost var target := ApplyConfig(State(), config);
      if TakesName(config) {
        portName := config[NameKey].s;
      }
      assert portName == target.name;
      if TakesBaud(config) {
        portBaudRate := config[BaudKey].i;
      }
      assert portBaudRate == target.baud;
      if TakesStopBits(config) {
        portStopBits := config[StopBitsKey];
      }
      assert portStopBits == target.stopBits;
      if TakesParity(config) {
        portParity := config[ParityKey];
      }
      assert portParity == target.parity;
      if TakesByteSize(config) {
        portByteSize := config[ByteSizeKey];
      }
      assert portByteSize == target.byteSize;
    }
  }

  /** The defaults are valid settings. */
  lemma DefaultsValid()
    ensures ValidConfig(Defaults)
    ensures Defaults.name == "" && Defaults.baud == 9600
  {
    assert PyInt(1) in StopBitsOptions && PyStr("N") in ParityOptions && PyInt(8) in ByteSizeOptions;
  }

  /**
   * Stop bits are taken for any int, bool or float equal to 1, 1.5 or 2 (so also
   * `True` and `2.0`), and for nothing else.
   */
  lemma StopBitsAccepted(v: PyValue)
    ensures InList(v, StopBitsOptions) <==> Numeric(v).Some? && Numeric(v).value in {1.0, 1.5, 2.0}
  {
    if Numeric(v).Some? && Numeric(v).value in {1.0, 1.5, 2.0} {
      var x := Numeric(v).value;
      var o := if x == 1.0 then PyInt(1) else if x == 1.5 then PyFloat(1.5) else PyInt(2);
      assert o in StopBitsOptions && PyEq(v, o);
    }
  }

  /** Parity is taken only for one of the strings "N", "E", "O", "M" and "S". */
  lemma ParityAccepted(v: PyValue)
    ensures InList(v, ParityOptions) <==> v.PyStr? && v.s in {"N", "E", "O", "M", "S"}
  {
    if v.PyStr? && v.s in {"N", "E", "O", "M", "S"} {
      assert PyStr(v.s) in ParityOptions && PyEq(v, PyStr(v.s));
    }
  }

  /** Byte size is taken for any int or float equal to 5, 6, 7 or 8, and nothing else. */
  lemma ByteSizeAccepted(v: PyValue)
    ensures InList(v, ByteSizeOptions) <==> Numeric(v).Some? && Numeric(v).value in {5.0, 6.0, 7.0, 8.0}
  {
    if Numeric(v).Some? && Numeric(v).value in {5.0, 6.0, 7.0, 8.0} {
      var x := Numeric(v).value;
      var o := if x == 5.0 then PyInt(5) else if x == 6.0 then PyInt(6) else if x == 7.0 then PyInt(7) else PyInt(8);
      assert o in ByteSizeOptions && PyEq(v, o);
    }
  }

  /**
   * The port name needs exactly a str and the baud rate exactly an int: `True` is not
   * a baud rate, while zero and negative ints are.
   */
  lemma TypeChecks(c: Config, b: bool, n: int)
    ensures ApplyConfig(c, map[BaudKey := PyBool(b)]).baud == c.baud
    ensures ApplyConfig(c, map[BaudKey := PyInt(n)]).baud == n
    ensures ApplyConfig(c, map[NameKey := PyInt(n)]).name == c.name
  {
  }

  /** A setting whose key is absent keeps its value. */
  lemma AbsentKeysKeep(c: Config, config: map<string, PyValue>)
    ensures var r := ApplyConfig(c, config);
      && (NameKey !in config ==> r.name == c.name)
      && (BaudKey !in config ==> r.baud == c.baud)
      && (StopBitsKey !in config ==> r.stopBits == c.stopBits)
      && (ParityKey !in config ==> r.parity == c.parity)
      && (ByteSizeKey !in config ==> r.byteSize == c.byteSize)
  {
  }

  /**
   * The keys are independent: dropping one key from the dictionary (say, one with a
   * bad value) changes no other setting's outcome.
   */
  lemma KeysIndependent(c: Config, config: map<string, PyValue>, key: string)
    ensures var r := ApplyConfig(c, config);
      var s := ApplyConfig(c, config - {key});
      && (key != NameKey ==> r.name == s.name)
      && (key != BaudKey ==> r.baud == s.baud)
      && (key != StopBitsKey ==> r.stopBits == s.stopBits)
      && (key != ParityKey ==> r.parity == s.parity)
      && (key != ByteSizeKey ==> r.byteSize == s.byteSize)
  {
  }

  /** `set_config` keeps the settings valid. */
  lemma ApplyKeepsValid(c: Config, config: map<string, PyValue>)
    ensures ValidConfig(c) ==> ValidConfig(ApplyConfig(c, config))
  {
  }

  /** Feeding `get_config`'s dictionary back to `set_config` changes nothing. */
  lemma ConfigRoundTrip(c: Config)
    ensures ValidConfig(c) ==> ApplyConfig(c, ConfigDict(c)) == c
  {
  }

  /** Applying the same dictionary twice is the same as applying it once. */
  lemma ApplyIdempotent(c: Config, config: map<string, PyValue>)
    ensures ApplyConfig(ApplyConfig(c, config), config) == ApplyConfig(c, config)
  {
  }
}
