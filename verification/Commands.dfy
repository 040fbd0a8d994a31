/** The firmware's commands: parsing one line into a command (firmware/src/protocol/parser.c,
    firmware/src/protocol/command.c) and the policy gates in front of its execution
    (firmware/src/protocol/dispatcher.c, e9_policy.c, hazard.c). */
module Commands {
  import opened Results
  import opened JsonFields
  import opened JsonObjects

  datatype CommandId =
    | Unknown | Info | Ws2812 | Dshot | Pwm | UartTx | I2cScan | I2cRead | SpiTx | Sync | Loopback

  const NAME_SIZE := 16
  const FRAME_SIZE := 16
  const PAYLOAD_SIZE := 64
  const MODE_SIZE := 8

  /** `command_t`: only the fields of its own kind are filled, the others stay zero. */
  datatype Command = Command(
    id: int, kind: CommandId, assertUndriven: bool,
    pin: int, sda: int, scl: int, sck: int, mosi: int, cs: int, generatorPin: int, capturePin: int,
    count: int, repeats: int, rate: int, value: int,
    freqHz: int, isPulseUs: bool, duty: int, pulseUs: int,
    baud: int, frame: string, payload: string, payloadLen: int,
    speedHz: int, addr: int, reg: int, len: int, mode: int, syncMode: string)

  function Zeros(n: nat): string {
    seq(n, _ => NUL)
  }

  /** The command after `memset`, with no kind yet. */
  function Cleared(): Command {
    Command(0, Unknown, false, 0, 0, 0, 0, 0, 0, 0, 0, 0, 0, 0, 0, 0, false, 0, 0,
            0, Zeros(FRAME_SIZE), Zeros(PAYLOAD_SIZE), 0, 0, 0, 0, 0, 0, Zeros(MODE_SIZE))
  }

  /** A C string in a buffer: what stands before its first NUL. */
  function CString(buffer: string): (s: string)
    ensures |s| <= |buffer| && s == buffer[..|s|]
    ensures '\0' !in s
    ensures |s| < |buffer| ==> buffer[|s|] == '\0'
  {
    if buffer == [] || buffer[0] == NUL then []
    else
      var s := CString(buffer[1..]);
      assert forall i :: 1 <= i < |s| + 1 ==> buffer[i] == s[i - 1];
      [buffer[0]] + s
  }

  /** `command_id_from_name`. */
  function KindOf(name: string): CommandId {
    if name == "info" then Info
    else if name == "ws2812" then Ws2812
    else if name == "dshot" then Dshot
    else if name == "pwm" then Pwm
    else if name == "uart_tx" then UartTx
    else if name == "i2c_scan" then I2cScan
    else if name == "i2c_read" then I2cRead
    else if name == "spi_tx" then SpiTx
    else if name == "sync" then Sync
    else if name == "loopback" then Loopback
    else Unknown
  }

  /** The cast to `uint32_t` of a field, or the zero that `memset` left when it is absent. */
  function U32(v: Option<int>): int {
    match v
    case None => 0
    case Some(x) => x % 0x1_0000_0000
  }

  /** The cast to `uint8_t`. */
  function U8(v: Option<int>): int {
    match v
    case None => 0
    case Some(x) => x % 0x100
  }

  // ---------------------------------------------------------------------------------------
  // Parsing
  // ---------------------------------------------------------------------------------------

  /** Where fields are looked up: in the text of a line, or in an object as such. */
  datatype Source = Line(text: string) | Fields(o: Object) {

    function Int(key: string): Option<int> {
      match this
      case Line(text) => GetInt(text, key)
      case Fields(o) => IntOf(Lookup(o.fields, key))
    }

    function Flag(key: string): Option<bool> {
      match this
      case Line(text) => GetBool(text, key)
      case Fields(o) => FlagOf(Lookup(o.fields, key))
    }

    function Str(key: string, size: nat): (c: Copied)
      requires size >= 1
      ensures |c.written| <= size
    {
      match this
      case Line(text) => GetString(text, key, size)
      case Fields(o) => TextOf(Lookup(o.fields, key), size)
    }

    predicate Shaped() {
      match this
      case Line(text) => LooksLikeObject(text)
      case Fields(_) => true
    }
  }

  function Buffer(c: Copied, size: nat): string
    requires |c.written| <= size
  {
    Overwritten(Zeros(size), c.written)
  }

  function PayloadLength(c: Copied): int
    requires |c.written| <= PAYLOAD_SIZE
  {
    if c.ok then |CString(Buffer(c, PAYLOAD_SIZE))| else 0
  }

  /** The fields of one kind of command. */
  function Filled(src: Source, cmd: Command): Command {
    match cmd.kind
    case Unknown => cmd
    case Info => cmd
    case Ws2812 => cmd.(pin := U32(src.Int("pin")), count := U32(src.Int("count")), repeats := U32(src.Int("repeat")))
    case Dshot =>
      cmd.(pin := U32(src.Int("pin")), rate := U32(src.Int("rate")), value := U32(src.Int("value")),
           repeats := U32(src.Int("repeat")))
    case Pwm =>
      var common := cmd.(pin := U32(src.Int("pin")), freqHz := U32(src.Int("freq_hz")));
      if src.Int("pulse_us").Some? then common.(pulseUs := U32(src.Int("pulse_us")), isPulseUs := true)
      else common.(duty := U32(src.Int("duty")), isPulseUs := false)
    case UartTx =>
      cmd.(pin := U32(src.Int("pin")), baud := U32(src.Int("baud")),
           frame := Buffer(src.Str("frame", FRAME_SIZE), FRAME_SIZE),
           payload := Buffer(src.Str("payload", PAYLOAD_SIZE), PAYLOAD_SIZE),
           payloadLen := PayloadLength(src.Str("payload", PAYLOAD_SIZE)),
           repeats := U32(src.Int("repeat")))
    case I2cScan => cmd.(sda := U32(src.Int("sda")), scl := U32(src.Int("scl")), speedHz := U32(src.Int("speed_hz")))
    case I2cRead =>
      cmd.(sda := U32(src.Int("sda")), scl := U32(src.Int("scl")), addr := U8(src.Int("addr")),
           reg := U8(src.Int("reg")), len := U32(src.Int("len")))
    case SpiTx =>
      cmd.(sck := U32(src.Int("sck")), mosi := U32(src.Int("mosi")), cs := U32(src.Int("cs")),
           mode := U32(src.Int("mode")), speedHz := U32(src.Int("speed_hz")),
           payload := Buffer(src.Str("payload", PAYLOAD_SIZE), PAYLOAD_SIZE),
           payloadLen := PayloadLength(src.Str("payload", PAYLOAD_SIZE)))
    case Sync => cmd.(pin := U32(src.Int("pin")), syncMode := Buffer(src.Str("mode", MODE_SIZE), MODE_SIZE))
    case Loopback =>
      cmd.(generatorPin := U32(src.Int("generator_pin")), capturePin := U32(src.Int("capture_pin")))
  }

  datatype Parsed = Parsed(ok: bool, cmd: Command)

  /** What `parse_command` promises. */
  function Parse(src: Source): Parsed {
    var named := Cleared().(id := U32(src.Int("id")));
    if !src.Shaped() || src.Int("id").None? || !src.Str("cmd", NAME_SIZE).ok then Parsed(false, named)
    else
      var kind := KindOf(CString(src.Str("cmd", NAME_SIZE).written));
      if kind == Unknown then Parsed(false, named)
      else Parsed(true, Filled(src, named.(kind := kind, assertUndriven := src.Flag("assert_undriven") == Some(true))))
  }

  method IntField(line: string, key: string) returns (value: int)
    ensures value == U32(Line(line).Int(key))
  {
    var v := JsonGetInt(line, key);
    value := U32(v);
  }

  method ByteField(line: string, key: string) returns (value: int)
    ensures value == U8(Line(line).Int(key))
  {
    var v := JsonGetInt(line, key);
    value := U8(v);
  }

  /** Reads a string field into a zeroed buffer of the command. */
  method StringField(line: string, key: string, size: nat) returns (ok: bool, buffer: string)
    requires size >= 1
    ensures ok == Line(line).Str(key, size).ok
    ensures buffer == Buffer(Line(line).Str(key, size), size)
  {
    var out := new char[size](_ => NUL);
    assert out[..] == Zeros(size);
    ok := JsonGetString(line, key, out);
    buffer := out[..];
  }

  /** `parse_command`: on the printed text of an object the command is what the object says. */
  method ParseCommand(line: string) returns (ok: bool, cmd: Command)
    ensures Parsed(ok, cmd) == Parse(Line(line))
    ensures forall o: Object :: Good(o) && line == Print(o) ==> Describes(o, ok, cmd)
  {
    ok, cmd := ParseLine(line);
    forall o: Object | Good(o) && line == Print(o) ensures Describes(o, ok, cmd) {
      hide Parse, Describes;
      PrintedDescribed(o);
    }
  }

  method ParseLine(line: string) returns (ok: bool, cmd: Command)
    ensures Parsed(ok, cmd) == Parse(Line(line))
  {
    cmd := Cleared();
    var id := JsonGetInt(line, "id");
    if id.Some? {
      cmd := cmd.(id := U32(id));
    }
    var shaped := CheckObject(line);
    if !shaped {
      return false, cmd;
    }
    if id.None? {
      return false, cmd;
    }
    var nameOk, name := StringField(line, "cmd", NAME_SIZE);
    if !nameOk {
      return false, cmd;
    }
    NameInBuffer(Line(line).Str("cmd", NAME_SIZE), NAME_SIZE);
    var kind := KindOf(CString(name));
    if kind == Unknown {
      return false, cmd;
    }
    cmd := cmd.(kind := kind);
    var undriven := JsonGetBool(line, "assert_undriven");
    cmd := cmd.(assertUndriven := undriven == Some(true));
    cmd := FillCommand(line, cmd);
    return true, cmd;
  }

  /** The text before the first NUL is the same in the copy and in the buffer around it. */
  lemma {:induction false} NameInBuffer(c: Copied, size: nat)
    requires |c.written| <= size && c.ok && c.written != [] && c.written[|c.written| - 1] == NUL
    ensures CString(Buffer(c, size)) == CString(c.written)
  {
    var a, b := CString(Buffer(c, size)), CString(c.written);
    var n := |c.written| - 1;
    assert Buffer(c, size)[n] == NUL;
    FirstNul(Buffer(c, size), c.written);
  }

  lemma {:induction false} FirstNul(longer: string, s: string)
    requires |s| <= |longer| && longer[..|s|] == s && NUL in s
    ensures CString(longer) == CString(s)
  {
    if s[0] != NUL {
      assert longer[0] == s[0];
      assert longer[1..][..|s| - 1] == s[1..];
      FirstNul(longer[1..], s[1..]);
    } else {
      assert longer[0] == s[0];
    }
  }

  /** The switch of `parse_command`. */
  method FillCommand(line: string, base: Command) returns (cmd: Command)
    ensures cmd == Filled(Line(line), base)
  {
    hide Source.Int, Source.Str, U32, U8, Buffer, CString, PayloadLength;
    cmd := base;
    match base.kind
    case Unknown =>
    case Info =>
    case Ws2812 =>
      var pin := IntField(line, "pin");
      var count := IntField(line, "count");
      var repeats := IntField(line, "repeat");
      cmd := cmd.(pin := pin, count := count, repeats := repeats);
    case Dshot =>
      var pin := IntField(line, "pin");
      var rate := IntField(line, "rate");
      var value := IntField(line, "value");
      var repeats := IntField(line, "repeat");
      cmd := cmd.(pin := pin, rate := rate, value := value, repeats := repeats);
    case Pwm =>
      var pin := IntField(line, "pin");
      var freqHz := IntField(line, "freq_hz");
      cmd := cmd.(pin := pin, freqHz := freqHz);
      var pulseUs := JsonGetInt(line, "pulse_us");
      assert pulseUs == Line(line).Int("pulse_us") by { IntOfLine(line, "pulse_us"); }
      if pulseUs.Some? {
        cmd := cmd.(pulseUs := U32(pulseUs), isPulseUs := true);
      } else {
        var duty := IntField(line, "duty");
        cmd := cmd.(duty := duty, isPulseUs := false);
      }
    case UartTx =>
      var pin := IntField(line, "pin");
      var baud := IntField(line, "baud");
      var _, frame := StringField(line, "frame", FRAME_SIZE);
      var payload, payloadLen := PayloadField(line);
      var repeats := IntField(line, "repeat");
      cmd := cmd.(pin := pin, baud := baud, frame := frame, payload := payload, payloadLen := payloadLen,
                  repeats := repeats);
    case I2cScan =>
      var sda := IntField(line, "sda");
      var scl := IntField(line, "scl");
      var speedHz := IntField(line, "speed_hz");
      cmd := cmd.(sda := sda, scl := scl, speedHz := speedHz);
    case I2cRead =>
      var sda := IntField(line, "sda");
      var scl := IntField(line, "scl");
      var addr := ByteField(line, "addr");
      var reg := ByteField(line, "reg");
      var len := IntField(line, "len");
      cmd := cmd.(sda := sda, scl := scl, addr := addr, reg := reg, len := len);
    case SpiTx =>
      var sck := IntField(line, "sck");
      var mosi := IntField(line, "mosi");
      var cs := IntField(line, "cs");
      var mode := IntField(line, "mode");
      var speedHz := IntField(line, "speed_hz");
      var payload, payloadLen := PayloadField(line);
      cmd := cmd.(sck := sck, mosi := mosi, cs := cs, mode := mode, speedHz := speedHz,
                  payload := payload, payloadLen := payloadLen);
    case Sync =>
      var pin := IntField(line, "pin");
      var _, syncMode := StringField(line, "mode", MODE_SIZE);
      cmd := cmd.(pin := pin, syncMode := syncMode);
    case Loopback =>
      var generatorPin := IntField(line, "generator_pin");
      var capturePin := IntField(line, "capture_pin");
      cmd := cmd.(generatorPin := generatorPin, capturePin := capturePin);
  }

  lemma IntOfLine(line: string, key: string)
    ensures Line(line).Int(key) == GetInt(line, key)
  {
    hide GetInt;
  }

  /** The payload buffer and its length, which stays zero when the field cannot be copied. */
  method PayloadField(line: string) returns (payload: string, length: int)
    ensures payload == Buffer(Line(line).Str("payload", PAYLOAD_SIZE), PAYLOAD_SIZE)
    ensures length == PayloadLength(Line(line).Str("payload", PAYLOAD_SIZE))
  {
    hide Source.Str, Buffer, CString;
    var ok;
    ok, payload := StringField(line, "payload", PAYLOAD_SIZE);
    length := 0;
    if ok {
      length := |CString(payload)|;
    }
  }

  // ---------------------------------------------------------------------------------------
  // Printed commands
  // ---------------------------------------------------------------------------------------

  /** Looking a key up in the printed text is looking it up in the object. */
  lemma {:induction false} SourcesAgree(o: Object, key: string)
    requires Good(o) && Identifier(key)
    ensures Line(Print(o)).Int(key) == Fields(o).Int(key)
    ensures Line(Print(o)).Flag(key) == Fields(o).Flag(key)
    ensures forall size: nat :: size >= 1 ==> Line(Print(o)).Str(key, size) == Fields(o).Str(key, size)
  {
    hide GetInt, GetBool, GetString, Good, Identifier, Lookup, IntOf, FlagOf, TextOf, Print;
    IntInPrinted(o, key);
    FlagInPrinted(o, key);
    forall size: nat | size >= 1 ensures Line(Print(o)).Str(key, size) == Fields(o).Str(key, size) {
      TextInPrinted(o, key, size);
    }
  }

  ghost predicate Agree(o: Object, key: string) {
    && Line(Print(o)).Int(key) == Fields(o).Int(key)
    && Line(Print(o)).Flag(key) == Fields(o).Flag(key)
    && forall size: nat :: size >= 1 ==> Line(Print(o)).Str(key, size) == Fields(o).Str(key, size)
  }

  lemma {:induction false} BusKeysAgree(o: Object)
    requires Good(o)
    ensures Agree(o, "id") && Agree(o, "cmd") && Agree(o, "assert_undriven")
    ensures Agree(o, "pin") && Agree(o, "repeat") && Agree(o, "payload")
    ensures Agree(o, "sda") && Agree(o, "scl") && Agree(o, "speed_hz") && Agree(o, "mode")
  {
    hide Source.Int, Source.Flag, Source.Str, Print, Good;
    SourcesAgree(o, "id");
    SourcesAgree(o, "cmd");
    SourcesAgree(o, "assert_undriven");
    SourcesAgree(o, "pin");
    SourcesAgree(o, "repeat");
    SourcesAgree(o, "payload");
    SourcesAgree(o, "sda");
    SourcesAgree(o, "scl");
    SourcesAgree(o, "speed_hz");
    SourcesAgree(o, "mode");
  }

  lemma {:induction false} OtherKeysAgree(o: Object)
    requires Good(o)
    ensures Agree(o, "count") && Agree(o, "rate") && Agree(o, "value") && Agree(o, "freq_hz")
    ensures Agree(o, "pulse_us") && Agree(o, "duty") && Agree(o, "baud") && Agree(o, "frame")
    ensures Agree(o, "addr") && Agree(o, "reg") && Agree(o, "len") && Agree(o, "sck")
    ensures Agree(o, "mosi") && Agree(o, "cs") && Agree(o, "generator_pin") && Agree(o, "capture_pin")
  {
    hide Source.Int, Source.Flag, Source.Str, Print, Good;
    SourcesAgree(o, "count");
    SourcesAgree(o, "rate");
    SourcesAgree(o, "value");
    SourcesAgree(o, "freq_hz");
    SourcesAgree(o, "pulse_us");
    SourcesAgree(o, "duty");
    SourcesAgree(o, "baud");
    SourcesAgree(o, "frame");
    SourcesAgree(o, "addr");
    SourcesAgree(o, "reg");
    SourcesAgree(o, "len");
    SourcesAgree(o, "sck");
    SourcesAgree(o, "mosi");
    SourcesAgree(o, "cs");
    SourcesAgree(o, "generator_pin");
    SourcesAgree(o, "capture_pin");
  }

  lemma {:induction false} FilledAgrees(o: Object, cmd: Command)
    requires Good(o)
    ensures Filled(Line(Print(o)), cmd) == Filled(Fields(o), cmd)
  {
    hide Source.Int, Source.Flag, Source.Str, Print, Good, U32, U8, Buffer, PayloadLength;
    BusKeysAgree(o);
    OtherKeysAgree(o);
  }

  /** Parsing the printed text of an object gives the command the object describes, whatever the
      order of its fields and the blanks around them. */
  lemma {:induction false} ParsePrinted(o: Object)
    requires Good(o)
    ensures Parse(Line(Print(o))) == Parse(Fields(o))
  {
    hide Source.Int, Source.Flag, Source.Str, Print, Good, U32, Filled, CString, KindOf, LooksLikeObject;
    PrintedLooksLikeObject(o);
    BusKeysAgree(o);
    var name := Fields(o).Str("cmd", NAME_SIZE).written;
    var kind := KindOf(CString(name));
    var named := Cleared().(id := U32(Fields(o).Int("id")));
    FilledAgrees(o, named.(kind := kind, assertUndriven := Fields(o).Flag("assert_undriven") == Some(true)));
  }

  // ---------------------------------------------------------------------------------------
  // The command of a printed object, field by field
  // ---------------------------------------------------------------------------------------

  /** The number under a key: saturated to a C long, then taken as 32 unsigned bits. */
  function NumberAt(o: Object, key: string): int {
    match Lookup(o.fields, key)
    case Some(Number(n)) =>
      if n > 0x7FFF_FFFF then 0x7FFF_FFFF
      else if n >= 0 then n
      else if n >= -0x8000_0000 then n + 0x1_0000_0000
      else 0x8000_0000
    case _ => 0
  }

  predicate HasNumber(o: Object, key: string) {
    Lookup(o.fields, key).Some? && Lookup(o.fields, key).value.Number?
  }

  /** The text under a key in a zeroed buffer whose last character stays NUL. */
  function TextAt(o: Object, key: string, size: nat): string {
    match Lookup(o.fields, key)
    case Some(Text(s)) => seq(size, i requires 0 <= i < size => if i < |s| && i < size - 1 then s[i] else '\0')
    case _ => seq(size, _ => '\0')
  }

  /** The text under a key that leaves room for its NUL in the given size, as a C string. */
  function ShortTextAt(o: Object, key: string, size: nat): string {
    match Lookup(o.fields, key)
    case Some(Text(s)) => if |s| < size then CString(s) else ""
    case _ => ""
  }

  const COMMAND_NAMES := ["info", "ws2812", "dshot", "pwm", "uart_tx", "i2c_scan", "i2c_read", "spi_tx", "sync",
                          "loopback"]

  /** Parsing succeeds exactly with an integer id and one of the ten names; the name decides the
      kind, and id and assertion are those of the object. */
  ghost predicate HeadingOf(o: Object, ok: bool, cmd: Command) {
    var name := ShortTextAt(o, "cmd", 16);
    && (ok <==> HasNumber(o, "id") && name in COMMAND_NAMES)
    && (cmd.kind == Unknown <==> !ok)
    && (cmd.kind == Info <==> ok && name == "info")
    && (cmd.kind == Ws2812 <==> ok && name == "ws2812")
    && (cmd.kind == Dshot <==> ok && name == "dshot")
    && (cmd.kind == Pwm <==> ok && name == "pwm")
    && (cmd.kind == UartTx <==> ok && name == "uart_tx")
    && (cmd.kind == I2cScan <==> ok && name == "i2c_scan")
    && (cmd.kind == I2cRead <==> ok && name == "i2c_read")
    && (cmd.kind == SpiTx <==> ok && name == "spi_tx")
    && (cmd.kind == Sync <==> ok && name == "sync")
    && (cmd.kind == Loopback <==> ok && name == "loopback")
    && cmd.id == NumberAt(o, "id")
    && (cmd.assertUndriven <==> ok && Lookup(o.fields, "assert_undriven") == Some(Flag(true)))
  }

  /** Every pin is the number under its own key for the kinds that have it, else zero. */
  ghost predicate PinsOf(o: Object, cmd: Command) {
    && cmd.pin == (if cmd.kind == Ws2812 || cmd.kind == Dshot || cmd.kind == Pwm || cmd.kind == UartTx ||
                      cmd.kind == Sync
                   then NumberAt(o, "pin") else 0)
    && cmd.sda == (if cmd.kind == I2cScan || cmd.kind == I2cRead then NumberAt(o, "sda") else 0)
    && cmd.scl == (if cmd.kind == I2cScan || cmd.kind == I2cRead then NumberAt(o, "scl") else 0)
    && cmd.sck == (if cmd.kind == SpiTx then NumberAt(o, "sck") else 0)
    && cmd.mosi == (if cmd.kind == SpiTx then NumberAt(o, "mosi") else 0)
    && cmd.cs == (if cmd.kind == SpiTx then NumberAt(o, "cs") else 0)
    && cmd.generatorPin == (if cmd.kind == Loopback then NumberAt(o, "generator_pin") else 0)
    && cmd.capturePin == (if cmd.kind == Loopback then NumberAt(o, "capture_pin") else 0)
  }

  /** So is every other number; two have eight bits only, and a pulse width outdoes a duty. */
  ghost predicate NumbersOf(o: Object, cmd: Command) {
    && cmd.count == (if cmd.kind == Ws2812 then NumberAt(o, "count") else 0)
    && cmd.repeats == (if cmd.kind == Ws2812 || cmd.kind == Dshot || cmd.kind == UartTx
                       then NumberAt(o, "repeat") else 0)
    && cmd.rate == (if cmd.kind == Dshot then NumberAt(o, "rate") else 0)
    && cmd.value == (if cmd.kind == Dshot then NumberAt(o, "value") else 0)
    && cmd.freqHz == (if cmd.kind == Pwm then NumberAt(o, "freq_hz") else 0)
    && (cmd.isPulseUs <==> cmd.kind == Pwm && HasNumber(o, "pulse_us"))
    && cmd.pulseUs == (if cmd.isPulseUs then NumberAt(o, "pulse_us") else 0)
    && cmd.duty == (if cmd.kind == Pwm && !cmd.isPulseUs then NumberAt(o, "duty") else 0)
    && cmd.baud == (if cmd.kind == UartTx then NumberAt(o, "baud") else 0)
    && cmd.speedHz == (if cmd.kind == I2cScan || cmd.kind == SpiTx then NumberAt(o, "speed_hz") else 0)
    && cmd.addr == (if cmd.kind == I2cRead then NumberAt(o, "addr") % 256 else 0)
    && cmd.reg == (if cmd.kind == I2cRead then NumberAt(o, "reg") % 256 else 0)
    && cmd.len == (if cmd.kind == I2cRead then NumberAt(o, "len") else 0)
    && cmd.mode == (if cmd.kind == SpiTx then NumberAt(o, "mode") else 0)
  }

  ghost predicate TextsOf(o: Object, cmd: Command) {
    && cmd.frame == (if cmd.kind == UartTx then TextAt(o, "frame", 16) else seq(16, _ => '\0'))
    && cmd.payload == (if cmd.kind == UartTx || cmd.kind == SpiTx then TextAt(o, "payload", 64) else seq(64, _ => '\0'))
    && cmd.payloadLen == (if cmd.kind == UartTx || cmd.kind == SpiTx then |ShortTextAt(o, "payload", 64)| else 0)
    && cmd.syncMode == (if cmd.kind == Sync then TextAt(o, "mode", 8) else seq(8, _ => '\0'))
  }

  /** The outcome of parsing is what the object says, key by key. */
  ghost predicate Describes(o: Object, ok: bool, cmd: Command) {
    HeadingOf(o, ok, cmd) && PinsOf(o, cmd) && NumbersOf(o, cmd) && TextsOf(o, cmd)
  }

  lemma NumberOf(o: Object, key: string)
    ensures U32(Fields(o).Int(key)) == NumberAt(o, key)
    ensures Fields(o).Int(key).Some? <==> HasNumber(o, key)
  {
    hide Lookup;
  }

  lemma ByteOf(o: Object, key: string)
    ensures U8(Fields(o).Int(key)) == NumberAt(o, key) % 256
  {
    hide Lookup;
  }

  lemma {:induction false} CStringEnds(s: string)
    ensures CString(s + [NUL]) == CString(s)
  {
    if s != [] {
      assert (s + [NUL])[1..] == s[1..] + [NUL];
      CStringEnds(s[1..]);
    }
  }

  lemma {:induction false} TextOfKey(o: Object, key: string, size: nat)
    requires size >= 1
    ensures var c := Fields(o).Str(key, size);
      && Buffer(c, size) == TextAt(o, key, size)
      && (if c.ok then CString(c.written) == CString(Buffer(c, size)) == ShortTextAt(o, key, size)
          else ShortTextAt(o, key, size) == "")
  {
    hide Lookup, CString;
    var c := Fields(o).Str(key, size);
    if c.ok {
      NameInBuffer(c, size);
      CStringEnds(Lookup(o.fields, key).value.s);
    }
  }

  lemma {:induction false} PinsDescribed(o: Object, base: Command)
    requires PinsOf(o, base.(kind := Unknown))
    ensures PinsOf(o, Filled(Fields(o), base))
  {
    hide Source.Int, Source.Str, U32, U8, Buffer, PayloadLength, NumberAt, HasNumber, Lookup;
    match base.kind
    case Unknown =>
    case Info =>
    case Ws2812 =>
      NumberOf(o, "pin");
    case Dshot =>
      NumberOf(o, "pin");
    case Pwm =>
      NumberOf(o, "pin");
    case UartTx =>
      NumberOf(o, "pin");
    case I2cScan =>
      NumberOf(o, "sda");
      NumberOf(o, "scl");
    case I2cRead =>
      NumberOf(o, "sda");
      NumberOf(o, "scl");
    case SpiTx =>
      NumberOf(o, "sck");
      NumberOf(o, "mosi");
      NumberOf(o, "cs");
    case Sync =>
      NumberOf(o, "pin");
    case Loopback =>
      NumberOf(o, "generator_pin");
      NumberOf(o, "capture_pin");
  }

  lemma {:induction false} NumbersDescribed(o: Object, base: Command)
    requires NumbersOf(o, base.(kind := Unknown))
    ensures NumbersOf(o, Filled(Fields(o), base))
  {
    hide Source.Int, Source.Str, U32, U8, Buffer, PayloadLength, NumberAt, HasNumber, Lookup;
    match base.kind
    case Unknown =>
    case Info =>
    case Ws2812 =>
      NumberOf(o, "count");
      NumberOf(o, "repeat");
    case Dshot =>
      NumberOf(o, "rate");
      NumberOf(o, "value");
      NumberOf(o, "repeat");
    case Pwm =>
      NumberOf(o, "freq_hz");
      NumberOf(o, "pulse_us");
      NumberOf(o, "duty");
    case UartTx =>
      NumberOf(o, "baud");
      NumberOf(o, "repeat");
    case I2cScan =>
      NumberOf(o, "speed_hz");
    case I2cRead =>
      ByteOf(o, "addr");
      ByteOf(o, "reg");
      NumberOf(o, "len");
    case SpiTx =>
      NumberOf(o, "mode");
      NumberOf(o, "speed_hz");
    case Sync =>
    case Loopback =>
  }

  lemma {:induction false} TextsDescribed(o: Object, base: Command)
    requires TextsOf(o, base.(kind := Unknown))
    ensures TextsOf(o, Filled(Fields(o), base))
  {
    hide Source.Int, Source.Str, U32, U8, Buffer, CString, TextAt, ShortTextAt;
    match base.kind
    case Unknown =>
    case Info =>
    case Ws2812 =>
    case Dshot =>
    case Pwm =>
    case UartTx =>
      TextOfKey(o, "frame", FRAME_SIZE);
      TextOfKey(o, "payload", PAYLOAD_SIZE);
    case I2cScan =>
    case I2cRead =>
    case SpiTx =>
      TextOfKey(o, "payload", PAYLOAD_SIZE);
    case Sync =>
      TextOfKey(o, "mode", MODE_SIZE);
    case Loopback =>
  }

  lemma KindNamed(name: string)
    ensures KindOf(name) == Unknown <==> name !in COMMAND_NAMES
  {
    var names := COMMAND_NAMES;
    assert names[0] == "info" && names[1] == "ws2812" && names[2] == "dshot" && names[3] == "pwm";
    assert names[4] == "uart_tx" && names[5] == "i2c_scan" && names[6] == "i2c_read" && names[7] == "spi_tx";
    assert names[8] == "sync" && names[9] == "loopback";
  }

  lemma {:induction false} FilledKeeps(src: Source, base: Command)
    ensures var cmd := Filled(src, base);
      cmd.id == base.id && cmd.kind == base.kind && cmd.assertUndriven == base.assertUndriven
  {
    hide Source.Int, Source.Str, U32, U8, Buffer, PayloadLength;
  }

  lemma {:induction false} HeadingDescribed(o: Object)
    ensures HeadingOf(o, Parse(Fields(o)).ok, Parse(Fields(o)).cmd)
  {
    hide Source.Int, Source.Str, U32, Filled, CString, Buffer, ShortTextAt, NumberAt, HasNumber, Lookup;
    NumberOf(o, "id");
    TextOfKey(o, "cmd", NAME_SIZE);
    var name := ShortTextAt(o, "cmd", 16);
    KindNamed(name);
    FilledKeeps(Fields(o), Cleared().(id := U32(Fields(o).Int("id")), kind := KindOf(name),
                                      assertUndriven := Fields(o).Flag("assert_undriven") == Some(true)));
  }

  lemma {:induction false} FieldsDescribed(o: Object)
    ensures Describes(o, Parse(Fields(o)).ok, Parse(Fields(o)).cmd)
  {
    hide HeadingOf, Source.Int, Source.Str, Source.Flag, U32, Filled, CString, KindOf;
    HeadingDescribed(o);
    var id := U32(Fields(o).Int("id"));
    NothingFilled(o, Cleared().(id := id));
    var kind, flag := KindOf(CString(Fields(o).Str("cmd", NAME_SIZE).written)), Fields(o).Flag("assert_undriven");
    var base := Cleared().(id := id, kind := kind, assertUndriven := flag == Some(true));
    NothingFilled(o, base.(kind := Unknown));
    PinsDescribed(o, base);
    NumbersDescribed(o, base);
    TextsDescribed(o, base);
  }

  lemma NothingFilled(o: Object, cmd: Command)
    requires cmd == Cleared().(id := cmd.id, assertUndriven := cmd.assertUndriven)
    ensures PinsOf(o, cmd) && NumbersOf(o, cmd) && TextsOf(o, cmd)
  {
    hide NumberAt, TextAt, ShortTextAt, HasNumber;
  }

  /** Parsing the printed text of any object, in any order of its fields and with any blanks,
      returns what the object says, key by key. */
  lemma {:induction false} PrintedDescribed(o: Object)
    requires Good(o)
    ensures Describes(o, Parse(Line(Print(o))).ok, Parse(Line(Print(o))).cmd)
  {
    hide Parse, Describes;
    ParsePrinted(o);
    FieldsDescribed(o);
  }

  /** A 32-bit field comes back exactly when it fits a C long; a larger one saturates. */
  lemma {:induction false} FieldRecoveredExactly(o: Object, key: string, n: int)
    requires Good(o) && Identifier(key) && Lookup(o.fields, key) == Some(Number(n)) && 0 <= n < 0x1_0000_0000
    ensures U32(Line(Print(o)).Int(key)) == n <==> n <= LONG_MAX
    ensures U32(Line(Print(o)).Int(key)) <= LONG_MAX
  {
    hide Print, Good, Identifier, Lookup, Source.Int;
    SourcesAgree(o, key);
    InRange(o, key, n);
  }

  lemma {:induction false} InRange(o: Object, key: string, n: int)
    requires Lookup(o.fields, key) == Some(Number(n)) && 0 <= n < 0x1_0000_0000
    ensures Fields(o).Int(key) == Some(if n <= LONG_MAX then n else LONG_MAX)
  {
    hide Lookup;
  }

  /** A payload comes back, with its length, exactly when it leaves room for the final NUL; of a
      longer one the front is left in the buffer under length zero. */
  lemma {:induction false} PayloadRecoveredExactly(o: Object, s: string)
    requires Good(o) && Lookup(o.fields, "payload") == Some(Text(s)) && NUL !in s
    ensures var c := Line(Print(o)).Str("payload", PAYLOAD_SIZE);
      && (PayloadLength(c) == |s| <==> |s| < PAYLOAD_SIZE)
      && (|s| < PAYLOAD_SIZE ==> CString(Buffer(c, PAYLOAD_SIZE)) == s)
      && (|s| >= PAYLOAD_SIZE ==> PayloadLength(c) == 0 && Buffer(c, PAYLOAD_SIZE) == s[..PAYLOAD_SIZE - 1] + [NUL])
  {
    hide Print, Good, Lookup, Source.Int, Source.Flag, Source.Str, CString, Buffer;
    SourcesAgree(o, "payload");
    TextField(o, "payload", s, PAYLOAD_SIZE);
    if |s| < PAYLOAD_SIZE {
      CStringIs(s, Zeros(PAYLOAD_SIZE)[|s| + 1..]);
      TextBuffer(s, PAYLOAD_SIZE);
    } else {
      FullBuffer(s[..PAYLOAD_SIZE - 1], PAYLOAD_SIZE);
    }
  }

  lemma TextField(o: Object, key: string, s: string, size: nat)
    requires size >= 1 && Lookup(o.fields, key) == Some(Text(s))
    ensures Fields(o).Str(key, size) == if |s| < size then Copied(true, s + [NUL]) else Copied(false, s[..size - 1])
  {
    hide Lookup;
  }

  lemma TextBuffer(s: string, size: nat)
    requires |s| < size
    ensures Buffer(Copied(true, s + [NUL]), size) == s + ([NUL] + Zeros(size)[|s| + 1..])
  {
  }

  lemma FullBuffer(s: string, size: nat)
    requires size >= 1 && |s| == size - 1
    ensures Buffer(Copied(false, s), size) == s + [NUL]
  {
  }

  lemma {:induction false} CStringIs(s: string, rest: string)
    requires NUL !in s
    ensures CString(s + ([NUL] + rest)) == s
  {
    var buffer := s + ([NUL] + rest);
    var t := CString(buffer);
    assert buffer[|s|] == NUL;
    if s != [] {
      assert buffer[0] == s[0] && s[0] in s;
      assert buffer[1..] == s[1..] + ([NUL] + rest);
      CStringIs(s[1..], rest);
    }
  }
}
