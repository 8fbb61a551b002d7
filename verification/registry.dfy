/**
  The static command tables: the predefined commands that can be requested
  over MQTT (`SMS_GAMER_COMMANDS_PARAMS`) and the three single-letter
  queries `send_simple_command` accepts (`simple_commands_map`).
  The two programs differ only in the predefined table, so the table is a
  value chosen by `Variant`.
 */
module Registry {
  import opened Base
  import opened Codec

  /** Command key to opcode and four parameter bytes. Every entry is a
      `Command`, so every field is a byte, as `struct.pack('B', …)` requires. */
  type Table = map<string, Command>

  /** The improved service and the Home Assistant add-on. */
  datatype Variant = Improved | AddOn

  function Query(opcode: byte): Command
  {
    Command(opcode, 0xFF, 0xFF, 0xFF, 0xFF)
  }

  /** The table of the improved service; 'zzz' and 'zz1' are commented out there. */
  function CanonicalTable(): Table
  {
    map[
      "Q" := Query(0x51), "I" := Query(0x49), "F" := Query(0x46),
      "M" := Query(0x4D), "D" := Query(0x44), "C" := Query(0x43),
      "G" := Command(0x47, 0x01, 0xFF, 0xFF, 0xFF), "L" := Query(0x4C),
      "T" := Command(0x54, 0x00, 0x10, 0x00, 0x00),
      "T1" := Command(0x54, 0x00, 0x64, 0x00, 0x00),
      "T2" := Command(0x54, 0x00, 0xC8, 0x00, 0x00),
      "T3" := Command(0x54, 0x01, 0x2C, 0x00, 0x00),
      "T9" := Command(0x54, 0x03, 0x84, 0x00, 0x00),
      "R" := Command(0x52, 0x00, 0xC8, 0x27, 0x0F)
    ]
  }

  /** The add-on's table: the same fourteen entries plus two experimental
      shutdown variants. */
  function AddOnTable(): Table
  {
    map[
      "Q" := Query(0x51), "I" := Query(0x49), "D" := Query(0x44),
      "F" := Query(0x46), "G" := Command(0x47, 0x01, 0xFF, 0xFF, 0xFF),
      "M" := Query(0x4D),
      "T" := Command(0x54, 0x00, 0x10, 0x00, 0x00),
      "T1" := Command(0x54, 0x00, 0x64, 0x00, 0x00),
      "T2" := Command(0x54, 0x00, 0xC8, 0x00, 0x00),
      "T3" := Command(0x54, 0x01, 0x2C, 0x00, 0x00),
      "T9" := Command(0x54, 0x03, 0x84, 0x00, 0x00),
      "C" := Query(0x43), "L" := Query(0x4C),
      "R" := Command(0x52, 0x00, 0xC8, 0x27, 0x0F),
      "zzz" := Command(0x52, 0x00, 0xC8, 0x0F, 0xEF),
      "zz1" := Command(0x52, 0x01, 0x2C, 0x27, 0x0F)
    ]
  }

  function TableOf(v: Variant): Table
  {
    match v
    case Improved => CanonicalTable()
    case AddOn => AddOnTable()
  }

  /** `simple_commands_map`: the opcode of a supported single-letter query. */
  function SimpleOpcode(c: string): (op: Option<byte>)
    ensures op.Some? <==> c in {"Q", "I", "F"}
  {
    if c == "Q" then Some(0x51)
    else if c == "I" then Some(0x49)
    else if c == "F" then Some(0x46)
    else None
  }

  /** The command `send_simple_command(c)` frames: the opcode with four 0xFF parameters. */
  function SimpleCommand(c: string): (cmd: Option<Command>)
    ensures cmd.Some? <==> SimpleOpcode(c).Some?
    ensures cmd.Some? ==>
              cmd.value.p1 == 0xFF && cmd.value.p2 == 0xFF
              && cmd.value.p3 == 0xFF && cmd.value.p4 == 0xFF
  {
    match SimpleOpcode(c)
    case None => None
    case Some(op) => Some(Query(op))
  }

  /** Test-duration commands: the second and third bytes are the test
      length in seconds, big-endian. */
  function TestSeconds(cmd: Command): nat
  {
    cmd.p1 * 256 + cmd.p2
  }
}

/** Facts about the two command tables. */
module RegistryFacts {
  import opened Base
  import opened Codec
  import opened Registry

  /** The add-on's table is the improved one extended by exactly 'zzz' and 'zz1',
      which the improved table does not contain. */
  lemma AddOnExtendsCanonical()
    ensures "zzz" !in CanonicalTable() && "zz1" !in CanonicalTable()
    ensures AddOnTable() == CanonicalTable()["zzz" := Command(0x52, 0x00, 0xC8, 0x0F, 0xEF)]
                                            ["zz1" := Command(0x52, 0x01, 0x2C, 0x27, 0x0F)]
    ensures AddOnTable().Keys == CanonicalTable().Keys + {"zzz", "zz1"}
  {
  }

  /** The empty key is in neither table, so a key that names an entry is never
      falsy in Python's sense. */
  lemma EmptyKeyAbsent(v: Variant)
    ensures "" !in TableOf(v)
  {
  }

  /** Q, I and F frame the same command through `send_simple_command` and
      through the predefined table, in both variants. */
  lemma SimpleAgreesWithTable(v: Variant, c: string)
    requires SimpleCommand(c).Some?
    ensures c in TableOf(v) && TableOf(v)[c] == SimpleCommand(c).value
    ensures BuildFrame(TableOf(v)[c]) == BuildFrame(SimpleCommand(c).value)
  {
  }

  /** The commands that discovery advertises (beep toggle, battery test,
      discharge, cancel, shutdown and restore) are keys of both tables. */
  lemma AdvertisedCommandsRegistered(v: Variant)
    ensures forall k :: k in ["M", "T", "D", "C", "R"] ==> k in TableOf(v)
  {
  }

  /** The battery-test entries run for 16, 100, 200, 300 and 900 seconds. */
  lemma TestDurations(v: Variant)
    ensures TestSeconds(TableOf(v)["T"]) == 16
    ensures TestSeconds(TableOf(v)["T1"]) == 100
    ensures TestSeconds(TableOf(v)["T2"]) == 200
    ensures TestSeconds(TableOf(v)["T3"]) == 300
    ensures TestSeconds(TableOf(v)["T9"]) == 900
    ensures forall k :: k in {"T", "T1", "T2", "T3", "T9"} ==> TableOf(v)[k].opcode == 0x54
  {
  }
}
