/**
  Home Assistant MQTT discovery: the twenty entities the bridge announces and
  the retained QoS-1 config messages that announce them
  (`publish_discovery_messages`). Only topics, QoS and retain flags are
  modelled; a config document is identified by its unique id.
 */
module Discovery {
  import opened Base
  import opened Codec
  import opened Trace

  /** The names the bridge builds its topics from. */
  datatype Config = Config(topicBase: string, discoveryPrefix: string, clientId: string)

  /** `MQTT_TOPIC_BASE`, `HA_DISCOVERY_PREFIX` and `MQTT_CLIENT_ID` of the improved service. */
  const DefaultConfig := Config("sms_gamer/ups", "homeassistant", "sms_gamer_monitor")

  /** Where Home Assistant sends commands and the bridge listens. */
  function CommandTopic(cfg: Config): string
  {
    cfg.topicBase + "/command"
  }

  /** Where decoded 'Q' replies are published. */
  function StatusTopic(cfg: Config): string
  {
    cfg.topicBase + "/status"
  }

  datatype Component = Sensor | BinarySensor | Switch | Button

  function ComponentName(c: Component): (name: string)
    ensures |name| >= 2
  {
    match c
    case Sensor => "sensor"
    case BinarySensor => "binary_sensor"
    case Switch => "switch"
    case Button => "button"
  }

  /** An announced entity; `command` is the predefined command key its
      button or switch payload carries. */
  datatype Entity = Entity(component: Component, key: string, command: Option<string>)

  /** Keys of the numeric and text sensors, in announcement order. */
  const SensorKeys: seq<string> :=
    ["vin", "vout", "load_percent", "frequency", "battery_percent", "temperature", "active_flags_str"]

  /** Keys of the `binary_flags` table: the status flags, in announcement order. */
  const BinaryFlagKeys: seq<string> :=
    ["BateriaEmUso", "BateriaBaixa", "ByPass", "Boost", "UpsOk", "TesteAtivo", "ShutdownAtivo", "BeepLigado"]

  /** `str.lower()` on ASCII letters. */
  function LowerChar(c: char): char
  {
    if 'A' <= c <= 'Z' then (c as int - 'A' as int + 'a' as int) as char else c
  }

  function Lower(s: string): string
  {
    seq(|s|, i requires 0 <= i < |s| => LowerChar(s[i]))
  }

  function Sensors(): seq<Entity>
  {
    seq(|SensorKeys|, i requires 0 <= i < |SensorKeys| => Entity(Sensor, SensorKeys[i], None))
  }

  /** One binary sensor per flag, keyed by the lower-cased flag name. */
  function BinarySensors(): seq<Entity>
  {
    seq(|BinaryFlagKeys|, i requires 0 <= i < |BinaryFlagKeys| => Entity(BinarySensor, Lower(BinaryFlagKeys[i]), None))
  }

  /** The beep switch sends the toggle command 'M' for both on and off. */
  const BeepSwitch := Entity(Switch, "beep_control", Some("M"))

  const Buttons: seq<Entity> := [
    Entity(Button, "battery_test", Some("T")),
    Entity(Button, "battery_discharge", Some("D")),
    Entity(Button, "cancel_action", Some("C")),
    Entity(Button, "shutdown_restore", Some("R"))
  ]

  /** Every announced entity, in the order of announcement. */
  function Entities(): seq<Entity>
  {
    Sensors() + BinarySensors() + [BeepSwitch] + Buttons
  }

  function UniqueId(cfg: Config, e: Entity): string
  {
    cfg.clientId + "_" + e.key
  }

  /** `<prefix>/<component>/<client id>_<key>/config`. */
  function ConfigTopic(cfg: Config, e: Entity): string
  {
    cfg.discoveryPrefix + "/" + ComponentName(e.component) + "/" + UniqueId(cfg, e) + "/config"
  }

  function Announce(cfg: Config, e: Entity): Action
  {
    Publish(ConfigTopic(cfg, e), ConfigDoc(UniqueId(cfg, e)), 1, true)
  }

  /** `publish_discovery_messages`: nothing without a client, otherwise one
      retained QoS-1 config message per entity, in order. */
  function DiscoveryActions(cfg: Config, hasClient: bool): (acts: seq<Action>)
    ensures |acts| == if hasClient then 20 else 0
    ensures forall i :: 0 <= i < |acts| ==> acts[i].Publish? && acts[i].qos == 1 && acts[i].retain
    ensures forall i :: 0 <= i < |acts| ==> !acts[i].payload.Empty?
    ensures forall i :: 0 <= i < |acts| ==> acts[i].topic == ConfigTopic(cfg, Entities()[i])
  {
    if !hasClient then []
    else seq(|Entities()|, i requires 0 <= i < |Entities()| => Announce(cfg, Entities()[i]))
  }

  /** The state Home Assistant shows for a flag's binary sensor, by the
      sensor's value template: on when the flag is listed, except 'UpsOk',
      a problem sensor that is on when the flag is missing. */
  function BinaryOn(flagKey: string, activeFlags: seq<string>): bool
  {
    if flagKey == "UpsOk" then flagKey !in activeFlags else flagKey in activeFlags
  }

  /** The beep switch's value template. */
  function BeepOn(activeFlags: seq<string>): bool
  {
    "BeepLigado" in activeFlags
  }
}

/** Facts about the announced entities and their topics. */
module DiscoveryFacts {
  import opened Base
  import opened Bytes
  import opened Codec
  import opened CodecFacts
  import opened Trace
  import opened Registry
  import opened Discovery

  /** Seven sensors, eight binary sensors, one switch and four buttons, in that order. */
  lemma EntityLayout()
    ensures |Entities()| == 20
    ensures forall i :: 0 <= i < 7 ==> Entities()[i].component == Sensor
    ensures forall i :: 7 <= i < 15 ==> Entities()[i].component == BinarySensor
    ensures Entities()[15].component == Switch
    ensures forall i :: 16 <= i < 20 ==> Entities()[i].component == Button
  {
  }

  /** The binary sensors are the decoder's flag names, bit 7 first. */
  lemma BinaryKeysAreFlagNames()
    ensures forall i :: 0 <= i < 8 ==> BinaryFlagKeys[i] == FlagName(7 - i)
  {
  }

  /** Every flag name the decoder can list has a binary sensor. */
  lemma DecodedFlagsHaveSensors(x: byte)
    ensures forall n :: n in ActiveFlags(x) ==> n in BinaryFlagKeys
  {
    var bits := ActiveBits(x, 8);
    forall n | n in ActiveFlags(x) ensures n in BinaryFlagKeys {
      var i :| 0 <= i < |ActiveFlags(x)| && ActiveFlags(x)[i] == n;
      BinaryKeysAreFlagNames();
      assert n == FlagName(bits[i]) == BinaryFlagKeys[7 - bits[i]];
    }
  }

  /** The binary-sensor keys as they appear in unique ids and topics. */
  lemma BinarySensorKeys()
    ensures forall i :: 0 <= i < 8 ==> BinarySensors()[i].key == [
      "bateriaemuso", "bateriabaixa", "bypass", "boost",
      "upsok", "testeativo", "shutdownativo", "beepligado"][i]
  {
    assert Lower("BateriaEmUso") == "bateriaemuso";
    assert Lower("BateriaBaixa") == "bateriabaixa";
    assert Lower("ByPass") == "bypass";
    assert Lower("Boost") == "boost";
    assert Lower("UpsOk") == "upsok";
    assert Lower("TesteAtivo") == "testeativo";
    assert Lower("ShutdownAtivo") == "shutdownativo";
    assert Lower("BeepLigado") == "beepligado";
  }

  /** The component is recoverable from the second character of its name. */
  lemma ComponentNameSecondChar(a: Component, b: Component)
    requires ComponentName(a)[1] == ComponentName(b)[1]
    ensures a == b
  {
  }

  /** The second character of the component name sits at a fixed offset. */
  lemma ConfigTopicComponentChar(cfg: Config, e: Entity)
    ensures |ConfigTopic(cfg, e)| > |cfg.discoveryPrefix| + 2
    ensures ConfigTopic(cfg, e)[|cfg.discoveryPrefix| + 2] == ComponentName(e.component)[1]
  {
    var c := ComponentName(e.component);
    var rest := "/" + UniqueId(cfg, e) + "/config";
    assert ConfigTopic(cfg, e) == (cfg.discoveryPrefix + "/") + (c + rest);
    assert (c + rest)[1] == c[1];
  }

  /** Everything before the key is fixed by the component. */
  function TopicHead(cfg: Config, c: Component): string
  {
    cfg.discoveryPrefix + "/" + ComponentName(c) + "/" + cfg.clientId + "_"
  }

  lemma ConfigTopicSplit(cfg: Config, e: Entity)
    ensures ConfigTopic(cfg, e) == TopicHead(cfg, e.component) + e.key + "/config"
  {
  }

  /** The four components are announced under Home Assistant's segment
      names, and no two share one. */
  lemma ComponentNames()
    ensures ComponentName(Sensor) == "sensor" && ComponentName(BinarySensor) == "binary_sensor"
    ensures ComponentName(Switch) == "switch" && ComponentName(Button) == "button"
    ensures forall a, b :: ComponentName(a) == ComponentName(b) ==> a == b
  {
    assert ComponentName(Sensor)[0] != ComponentName(BinarySensor)[0];
    assert ComponentName(Switch)[1] != ComponentName(Sensor)[1];
  }

  /** Distinct (component, key) pairs get distinct config topics. */
  lemma ConfigTopicInjective(cfg: Config, e1: Entity, e2: Entity)
    requires ConfigTopic(cfg, e1) == ConfigTopic(cfg, e2)
    ensures e1.component == e2.component && e1.key == e2.key
  {
    ConfigTopicComponentChar(cfg, e1);
    ConfigTopicComponentChar(cfg, e2);
    ComponentNameSecondChar(e1.component, e2.component);
    var t := ConfigTopic(cfg, e1);
    var head := TopicHead(cfg, e1.component);
    ConfigTopicSplit(cfg, e1);
    ConfigTopicSplit(cfg, e2);
    assert e1.key == t[|head|..|t| - 7];
    assert e2.key == t[|head|..|t| - 7];
  }

  lemma SensorKeysDistinct()
    ensures forall i, j :: 0 <= i < j < |SensorKeys| ==> SensorKeys[i] != SensorKeys[j]
  {
  }

  lemma BinaryKeysDistinct()
    ensures forall i, j :: 0 <= i < j < 8 ==> BinarySensors()[i].key != BinarySensors()[j].key
  {
    BinarySensorKeys();
  }

  lemma ButtonKeysDistinct()
    ensures forall i, j :: 0 <= i < j < |Buttons| ==> Buttons[i].key != Buttons[j].key
  {
  }

  /** No two announced entities share a component and a key. */
  lemma EntitiesDistinct()
    ensures forall i, j :: 0 <= i < j < |Entities()| ==>
              Entities()[i].component != Entities()[j].component || Entities()[i].key != Entities()[j].key
  {
    EntityLayout();
    SensorKeysDistinct();
    BinaryKeysDistinct();
    ButtonKeysDistinct();
    var es := Entities();
    forall i, j | 0 <= i < j < |es|
      ensures es[i].component != es[j].component || es[i].key != es[j].key
    {
      if es[i].component == es[j].component {
        if j < 7 {
          assert es[i].key == SensorKeys[i] && es[j].key == SensorKeys[j];
        } else if j < 15 {
          assert es[i] == BinarySensors()[i - 7] && es[j] == BinarySensors()[j - 7];
        } else {
          assert es[i] == Buttons[i - 16] && es[j] == Buttons[j - 16];
        }
      }
    }
  }

  /** The twenty config messages go to twenty different topics. */
  lemma DiscoveryTopicsDistinct(cfg: Config)
    ensures forall i, j :: 0 <= i < j < |DiscoveryActions(cfg, true)| ==>
              DiscoveryActions(cfg, true)[i].topic != DiscoveryActions(cfg, true)[j].topic
  {
    var acts := DiscoveryActions(cfg, true);
    EntitiesDistinct();
    forall i, j | 0 <= i < j < |acts| ensures acts[i].topic != acts[j].topic {
      if acts[i].topic == acts[j].topic {
        ConfigTopicInjective(cfg, Entities()[i], Entities()[j]);
      }
    }
  }

  /** A config topic is never the command topic nor the status topic: it ends
      in 'g', they end in 'd' and 's'. */
  lemma ConfigTopicIsNotBridgeTopic(cfg: Config, e: Entity)
    ensures ConfigTopic(cfg, e) != CommandTopic(cfg)
    ensures ConfigTopic(cfg, e) != StatusTopic(cfg)
  {
    var t := ConfigTopic(cfg, e);
    assert t[|t| - 1] == 'g';
    assert CommandTopic(cfg)[|CommandTopic(cfg)| - 1] == 'd';
    assert StatusTopic(cfg)[|StatusTopic(cfg)| - 1] == 's';
  }

  /** The command topic and the status topic never coincide. */
  lemma BridgeTopicsDistinct(cfg: Config)
    ensures CommandTopic(cfg) != StatusTopic(cfg)
  {
    assert CommandTopic(cfg)[|CommandTopic(cfg)| - 1] == 'd';
    assert StatusTopic(cfg)[|StatusTopic(cfg)| - 1] == 's';
  }

  /** Every command a button or the beep switch sends is a predefined command
      of both variants. */
  lemma AnnouncedCommandsRegistered(v: Variant)
    ensures forall e :: e in Entities() && e.command.Some? ==> e.command.value in TableOf(v)
  {
    forall e | e in Entities() && e.command.Some? ensures e.command.value in TableOf(v) {
      var i :| 0 <= i < |Entities()| && Entities()[i] == e;
      EntityLayout();
    }
  }

  /** Each flag's binary sensor follows its bit of byte 15 of the reply it was
      published from; the 'UpsOk' sensor (bit 3) is inverted. */
  lemma BinarySensorTracksBit(resp: seq<byte>, i: nat)
    requires |resp| >= MinReplyLength && i < 8
    ensures DecodeQ(resp).Some?
    ensures BinaryOn(BinaryFlagKeys[i], DecodeQ(resp).value.activeFlags)
            <==> (BitSet(resp[15], 7 - i) != (i == 4))
  {
    BinaryKeysAreFlagNames();
    DecodeQActiveFlags(resp);
    assert FlagName(7 - i) in ActiveFlags(resp[15]) <==> BitSet(resp[15], 7 - i);
  }

  /** The beep switch is on exactly when bit 0 of byte 15 is set. */
  lemma BeepSwitchTracksBit(resp: seq<byte>)
    requires |resp| >= MinReplyLength
    ensures DecodeQ(resp).Some?
    ensures BeepOn(DecodeQ(resp).value.activeFlags) <==> BitSet(resp[15], 0)
  {
    DecodeQActiveFlags(resp);
    assert FlagName(0) in ActiveFlags(resp[15]) <==> BitSet(resp[15], 0);
  }
}
