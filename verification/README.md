# SMS Gamer UPS to MQTT bridge — a Dafny model

The bridge talks to an SMS Gamer UPS over a serial port and republishes its state on MQTT for
Home Assistant. It polls the UPS with the 'Q' query and decodes the 17-byte status reply into
readings and eight status flags. Home Assistant entities are announced through MQTT discovery.
Commands arriving on `<base>/command` are forwarded to the UPS as 7-byte protocol frames.

The model covers the two programs of the repository:

- the improved service, `sms_gamer_ups_monitor.py`, whose copy under `sms_nobreak_addon/` is
  byte-identical;
- the Home Assistant add-on, `add-on/SMS_monitor.py`.

The registry, the connection behaviour and the shutdown differ between them. The model makes
these a parameter, `Registry.Variant`.

Files and modules:

- `base.dfy` (`Base`): bytes and `Option`.
- `bytes.dfy` (`Bytes`): big-endian integers, lower-case hex and `{x:08b}` binary, each with its
  inverse.
- `codec.dfy` (`Codec`, `CodecFacts`): the checksum, frame building, the flag table and the 'Q'
  decoder.
- `registry.dfy` (`Registry`, `RegistryFacts`): `SMS_GAMER_COMMANDS_PARAMS` of both programs and
  `simple_commands_map`.
- `mqtt.dfy` (`Trace`, `TraceFacts`, `Broker`, `BrokerFacts`):
  - the abstract actions the bridge performs;
  - a broker that applies them, following section 3.3.1.3 of MQTT 3.1.1: a retained PUBLISH
    replaces the retained message of its topic, and a zero-byte retained PUBLISH removes it;
  - what the broker sends back, following the same section and section 3.8.4: a SUBSCRIBE
    brings back the topic's retained message, and a PUBLISH to a subscribed topic is forwarded.
- `discovery.dfy` (`Discovery`, `DiscoveryFacts`): the twenty entities and their retained
  config topics.
- `json.dfy` (`Json`): the parsed JSON value of an inbound message, `dict.get`, truthiness and
  hashability.
- `bridge.dfy` (`Bridge`): the serial exchanges, the inbound command handler, the MQTT
  callbacks, `connect_mqtt`, `mqtt_monitor_loop` and `disconnect`. Each is an operation that
  returns the actions it performs. The serial port's answer is an input.
- `bridge_facts.dfy` (`BridgeFacts`): what those actions mean for the UPS and for the broker.

Readings are integers in tenths, which are the raw big-endian values. The source divides them by
10.0 and rounds them.

The flag names are the Portuguese ones (`BateriaEmUso` … `BeepLigado`), and the summary of an
empty flag list is `'nenhuma flag ativa'`. The reply `00 00 00 09 60 00 E6 00 00 02 58 03 84 01
F4 81 0D` decodes to an input of 2400 tenths (240.0 V) and a battery of 900 tenths (90.0 %)
(`CodecFacts.DecodeQExampleReadings`).

Both programs subscribe to the command topic before they purge it, so a retained command is
delivered and carried out on connect (see "## Findings"). The model's `Bridge.OnConnect` and
`Bridge.ConnectMqtt` purge first; the order as written is `Bridge.OnConnectAsWritten` and
`Bridge.ConnectMqttAsWritten`. Both orders leave the broker in the same state
(`BridgeFacts.OnConnectAsWrittenSameBroker`, `BridgeFacts.ConnectMqttAsWrittenSameBroker`), so
the broker facts about connecting hold of the program as written; only what the broker sends
back differs. `Bridge.Start`, and with it `Bridge.MonitorLoop`, connect the
add-on through the corrected `Bridge.ConnectMqtt`.

## Model

| member | source | states |
|---|---|---|
| Codec.Checksum | sms_gamer_ups_monitor.py:172-183 | the checksum is a byte, and the five command bytes plus the checksum sum to 0 mod 256 |
| Codec.ChecksumUnique | add-on/SMS_monitor.py:101-102 | the checksum is the only byte that makes the six bytes sum to 0 mod 256 |
| Codec.BuildFrame | sms_gamer_ups_monitor.py:185-197 | a frame is 7 bytes: opcode, p1..p4 in order, a byte making the six sum to 0 mod 256, then 0x0D |
| Codec.ParseBuildFrame | add-on/SMS_monitor.py:104-106 | a device that checks length, terminator and checksum accepts every built frame and recovers the command |
| Codec.BuildParseFrame | add-on/SMS_monitor.py:104-106 | every frame a device would accept is the built frame of the command it carries |
| Codec.BuildFrameInjective | sms_gamer_ups_monitor.py:185-197 | distinct commands give distinct frames |
| Codec.FlagNameInjective | sms_gamer_ups_monitor.py:259-268 | the eight flag names are pairwise distinct |
| Codec.ActiveBitsDescending | sms_gamer_ups_monitor.py:270 | the set bits are listed from bit 7 down to bit 0 |
| Codec.ActiveBitsMembership | sms_gamer_ups_monitor.py:270 | a bit is listed exactly when it is below the width and set |
| Codec.ActiveFlags | sms_gamer_ups_monitor.py:259-270 | a flag name is listed exactly when its bit of the byte is set; the names are in strictly decreasing bit order and contain no duplicate |
| Codec.StripTerminator | add-on/SMS_monitor.py:137-139 | exactly one trailing 0x0D is removed when present, and the result is a prefix of the reply |
| Codec.DecodeQ | sms_gamer_ups_monitor.py:241-291 | the decoder rejects exactly the replies shorter than 17 bytes (the empty one included); otherwise vin is the big-endian u32 of bytes 1..4, the five u16 fields are byte pairs 5-6 … 13-14, the raw flags are byte 15, and the hex is that of the reply without its terminator |
| Codec.EncodeQReply | add-on/SMS_monitor.py:141-147 | an encoded reply is 17 bytes long |
| CodecFacts.BitsValueOfActiveBits | sms_gamer_ups_monitor.py:270 | the listed bits add back up to the byte |
| Codec.FlagMaskOfName | sms_gamer_ups_monitor.py:259-268 | each flag name maps back to the mask of its bit |
| CodecFacts.FlagsByteOfActiveFlags | sms_gamer_ups_monitor.py:259-270 | the flag list determines byte 15: the masks of the listed names sum to the byte |
| CodecFacts.ActiveFlagsEmpty | sms_gamer_ups_monitor.py:270-271 | the flag list is empty exactly when the byte is 0 |
| CodecFacts.FlagsSummaryOfByte | add-on/SMS_monitor.py:163 | the summary is 'nenhuma flag ativa' exactly when the byte is 0, and otherwise the ", " join of the names |
| CodecFacts.BinaryMatchesFlags | sms_gamer_ups_monitor.py:257-271 | character 7-b of the 8-digit binary string is '1' exactly when the flag of bit b is listed |
| CodecFacts.FlagByteHasEightBits | sms_gamer_ups_monitor.py:270 | no bit above 7 of a byte is set, so eight names cover every flag |
| CodecFacts.DecodeQReadingsInRange | sms_gamer_ups_monitor.py:249-255 | every reply of at least 17 bytes decodes, with vin below 2^32 and each u16 field below 2^16 |
| CodecFacts.DecodeQOfEncodeQReply | add-on/SMS_monitor.py:141-163 | decoding an encoded reply gives back the readings, the flag byte and its flag list |
| CodecFacts.DecodeQIgnoresEnvelope | add-on/SMS_monitor.py:141-147 | byte 0, bytes 16 onwards and the terminator strip do not affect readings or flags |
| CodecFacts.DecodeQRawHex | add-on/SMS_monitor.py:133-176 | the hex decodes back to exactly the reply without its trailing 0x0D; at least 16 bytes remain after the strip, so decoding never fails past the length check |
| CodecFacts.DecodeQActiveFlags | sms_gamer_ups_monitor.py:255-270 | the decoded flag list is the flag list of byte 15 |
| CodecFacts.DecodeQFlags | sms_gamer_ups_monitor.py:255-271 | raw flags, binary string, names and summary of a decoded reply agree bit by bit with byte 15 |
| CodecFacts.DecodeQExampleReadings | sms_gamer_ups_monitor.py:249-254 | the example reply reads 2400, 230, 0, 600, 900 and 500 tenths |
| CodecFacts.DecodeQExampleFlags | sms_gamer_ups_monitor.py:259-271 | flag byte 0x81 of the example lists BateriaEmUso then BeepLigado |
| CodecFacts.DecodeQExampleWithoutTerminator | sms_gamer_ups_monitor.py:241-243 | the example cut to 16 bytes is rejected, because the length check precedes the strip |
| Bytes.BigEndianOfToBigEndian | sms_gamer_ups_monitor.py:249-254 | big-endian decoding inverts encoding for every value that fits |
| Bytes.ToBigEndianOfBigEndian | sms_gamer_ups_monitor.py:249-254 | big-endian encoding inverts decoding for every byte string |
| Bytes.UnhexOfHex | sms_gamer_ups_monitor.py:284 | the lower-case hex rendering of bytes can be read back to the same bytes |
| Bytes.FromBinaryOfBinary | sms_gamer_ups_monitor.py:257 | the 8-digit binary rendering can be read back to the byte |
| Bytes.BinaryDigitIsBit | sms_gamer_ups_monitor.py:257 | digit n-1-b of the binary rendering is '1' exactly when bit b is set |
| RegistryFacts.AddOnExtendsCanonical | add-on/SMS_monitor.py:22-39 | the add-on's table is the improved table plus exactly 'zzz' and 'zz1', which the improved table lacks |
| RegistryFacts.EmptyKeyAbsent | sms_gamer_ups_monitor.py:43-74 | no table has the empty key |
| RegistryFacts.SimpleAgreesWithTable | sms_nobreak_addon/sms_gamer_ups_monitor.py:118-122 | Q, I and F frame the same command through the simple map and through either table |
| RegistryFacts.AdvertisedCommandsRegistered | sms_nobreak_addon/sms_gamer_ups_monitor.py:43-74 | M, T, D, C and R are keys of both tables |
| RegistryFacts.TestDurations | sms_gamer_ups_monitor.py:57-61 | the battery tests run 16, 100, 200, 300 and 900 seconds, all with opcode 0x54 |
| Registry.SimpleOpcode | sms_gamer_ups_monitor.py:118-122 | exactly Q, I and F have a simple opcode |
| Registry.SimpleCommand | add-on/SMS_monitor.py:108-112 | a simple command exists exactly for Q, I and F, with all four parameters 0xFF |
| BrokerFacts.ApplyRetained | sms_gamer_ups_monitor.py:305-306 | what a topic retains is decided by the last retained publish to it: a zero-byte one removes it, another replaces it, none leaves it |
| BrokerFacts.ApplySubscriptions | sms_gamer_ups_monitor.py:301 | the broker's subscriptions grow by exactly the subscribed topics |
| BrokerFacts.ApplyIdempotent | sms_gamer_ups_monitor.py:293-310 | delivering a trace a second time leaves the broker as the first delivery left it |
| BrokerFacts.ApplyQuiet | sms_gamer_ups_monitor.py:312-319 | a trace without subscribe or publish leaves the broker unchanged |
| DiscoveryFacts.ComponentNames | sms_gamer_ups_monitor.py:405-477 | the components are announced as "sensor", "binary_sensor", "switch" and "button", and no two share a name |
| Discovery.DiscoveryActions | sms_gamer_ups_monitor.py:375-489 | without a client nothing is published; otherwise there are 20 QoS-1 retained publishes with non-empty payloads, the i-th on the config topic of the i-th entity |
| DiscoveryFacts.EntityLayout | sms_gamer_ups_monitor.py:393-489 | the entities are 7 sensors, 8 binary sensors, 1 switch and 4 buttons, in that order |
| DiscoveryFacts.BinaryKeysAreFlagNames | sms_nobreak_addon/sms_gamer_ups_monitor.py:420-430 | the binary-sensor keys are the decoder's eight flag names, bit 7 first |
| DiscoveryFacts.DecodedFlagsHaveSensors | sms_nobreak_addon/sms_gamer_ups_monitor.py:420-434 | every name the decoder can list has a binary sensor |
| DiscoveryFacts.BinarySensorKeys | sms_gamer_ups_monitor.py:433 | the binary sensors' unique-id keys are the lower-cased flag names |
| DiscoveryFacts.ConfigTopicInjective | sms_gamer_ups_monitor.py:403-489 | a config topic determines its entity's component and key |
| DiscoveryFacts.EntitiesDistinct | sms_gamer_ups_monitor.py:393-489 | no two entities share both component and key |
| DiscoveryFacts.DiscoveryTopicsDistinct | sms_gamer_ups_monitor.py:375-489 | the 20 config topics are pairwise distinct |
| DiscoveryFacts.ConfigTopicIsNotBridgeTopic | sms_gamer_ups_monitor.py:403-489 | no config topic is the command or the status topic |
| DiscoveryFacts.BridgeTopicsDistinct | sms_gamer_ups_monitor.py:515 | the command topic and the status topic differ |
| DiscoveryFacts.AnnouncedCommandsRegistered | sms_nobreak_addon/sms_gamer_ups_monitor.py:457-472 | every command the switch or a button sends is a key of both tables |
| DiscoveryFacts.BinarySensorTracksBit | sms_gamer_ups_monitor.py:420-443 | each flag's binary sensor is on exactly when its bit of byte 15 is set, inverted for UpsOk |
| DiscoveryFacts.BeepSwitchTracksBit | sms_gamer_ups_monitor.py:455 | the beep switch is on exactly when bit 0 of byte 15 is set |
| Json.Get | sms_gamer_ups_monitor.py:333 | a found value belongs to a member with that key after which no member has the key (the last occurrence wins), and a missing key occurs in no member |
| Bridge.Transfer | sms_gamer_ups_monitor.py:216-229 | one exchange writes exactly its frame, yields the port's bytes exactly when a non-empty read came back, and never touches the broker |
| Bridge.TransferReads | sms_gamer_ups_monitor.py:218-220 | a read of at most 64 bytes happens exactly when the write did not fail, after the settle delay |
| Bridge.SendSimple | sms_nobreak_addon/sms_gamer_ups_monitor.py:199-229 | only Q, I and F are accepted; an accepted query writes its frame exactly when the port is ready; a reply implies a ready port that answered, and a ready port that answered yields a reply carrying exactly its bytes |
| Bridge.SendPredefined | sms_nobreak_addon/sms_gamer_ups_monitor.py:530-565 | an unknown key or a port that is not ready writes nothing; otherwise the key's frame is written once; a reply implies a known key, a ready port and a non-empty read, and a known key on a ready port that answered yields a reply carrying exactly its bytes |
| Bridge.SimpleMatchesPredefined | sms_nobreak_addon/sms_gamer_ups_monitor.py:199-229 | a simple query writes the same frame as the predefined command of the same key; the settle delay is 200 ms for one and 1000 ms for the other |
| Bridge.Dispatch | add-on/SMS_monitor.py:206-225 | a message is only ever forwarded as a key of the table |
| Bridge.Inbound | sms_gamer_ups_monitor.py:332-333 | a delivered payload is unreadable as JSON exactly when it is the zero-byte one; the bridge's own documents are objects without a "command" member; a posted message is read as its JSON value |
| Bridge.OnMessage | sms_gamer_ups_monitor.py:321-347 | handling a message writes at most one frame and never publishes |
| Bridge.DiscoveryQuiet | sms_gamer_ups_monitor.py:375-489 | discovery writes nothing and publishes neither to the command topic nor to the status topic |
| Bridge.OnConnect | sms_gamer_ups_monitor.py:293-310 | on success: the retained zero-byte purge of the command topic, then the subscribe to it (the corrected order), then one retained publish per entity config topic in order, and the purge is the only publish to the command topic; on failure nothing reaches the broker |
| Bridge.OnConnectAsWritten | sms_gamer_ups_monitor.py:298-308 | the callback as written performs the same actions as the corrected one, with the subscribe and the purge swapped |
| Bridge.OnDisconnect | sms_gamer_ups_monitor.py:312-319 | the disconnect callback neither subscribes, publishes nor writes, whatever the code |
| Bridge.ConnectMqtt | add-on/SMS_monitor.py:228-249 | the client exists afterwards even on failure; the add-on ends with the purge of the command topic and then the subscribe to it (the corrected order), and the improved service touches no topic here |
| Bridge.ConnectMqttAsWritten | add-on/SMS_monitor.py:228-249 | the add-on's connect_mqtt as written performs the same actions as the corrected one, with its last two actions, the subscribe and the purge, swapped |
| Bridge.ConnectQuiet | add-on/SMS_monitor.py:235-241 | connecting publishes to no topic other than the command topic |
| Bridge.Start | sms_gamer_ups_monitor.py:491-506 | polling starts exactly when the port is connected and a client exists or connecting succeeds |
| Bridge.StartQuiet | add-on/SMS_monitor.py:399-407 | start-up writes nothing and publishes no status |
| Bridge.QueryExchange | sms_gamer_ups_monitor.py:511 | the cycle's 'Q' query is always accepted, writes the Q frame exactly when the port is ready, and returns the port's bytes exactly when it is ready and answered |
| Bridge.PollCycleReport | sms_gamer_ups_monitor.py:511-517 | a cycle reports a status exactly when the reply is at least 17 bytes |
| Bridge.PollCyclePublishes | sms_nobreak_addon/sms_gamer_ups_monitor.py:510-524 | a cycle publishes one non-retained QoS-1 status with the decoded reply exactly when the port is ready and returns a full reply, and nothing otherwise; it publishes nothing on any other topic |
| Bridge.PollCycleWrites | sms_nobreak_addon/sms_gamer_ups_monitor.py:510-524 | a cycle writes the Q frame exactly when the port is ready, and always ends by waiting the interval, so the loop continues |
| Bridge.CycleStep | sms_gamer_ups_monitor.py:510-524 | appending a cycle adds its write and its status publish to the counts and keeps the earlier actions |
| Bridge.RunCycle | sms_gamer_ups_monitor.py:510-524 | one cycle, run, writes one frame when the port is ready and publishes one status update exactly when the reply is a full Q reply |
| Bridge.Poll | sms_gamer_ups_monitor.py:509-524 | over n cycles with a ready port, n frames are written and one status per full reply is published |
| Bridge.MonitorLoop | sms_gamer_ups_monitor.py:491-528 | a loop that gives up at start-up does only its start-up; otherwise it publishes one status per full reply, writes one frame per cycle, and keeps the start-up actions first |
| Bridge.Disconnect | sms_nobreak_addon/sms_gamer_ups_monitor.py:159-170 | the port is closed only if it was present, and the service is left disconnected and valid |
| Bridge.DisconnectActions | sms_nobreak_addon/sms_gamer_ups_monitor.py:159-170 | the port is closed exactly when it was open; the client is disconnected exactly when it exists; the loop is stopped only by the improved service, right after the disconnect |
| Bridge.DisconnectQuiet | sms_nobreak_addon/sms_gamer_ups_monitor.py:159-170 | disconnecting writes nothing and neither subscribes nor publishes |
| Bridge.DisconnectTwice | sms_nobreak_addon/sms_gamer_ups_monitor.py:159-170 | a second disconnect changes nothing and does not close the port again |
| BridgeFacts.DispatchExact | sms_gamer_ups_monitor.py:332-340 | a message is forwarded exactly when it is an object whose "command" string is a key of the table, and then that key is sent |
| BridgeFacts.DispatchReasons | sms_gamer_ups_monitor.py:331-347 | non-JSON, non-object, missing-command and unhashable-command messages are each dropped for that reason |
| BridgeFacts.AnnouncedCommandsDispatch | sms_gamer_ups_monitor.py:468-482 | the message of every announced button and of the beep switch is forwarded, in both programs |
| BridgeFacts.ExperimentalShutdownOnlyInAddOn | add-on/SMS_monitor.py:36-37 | 'zzz' and 'zz1' are forwarded by the add-on and dropped as unknown by the improved service |
| BridgeFacts.OnMessageWrites | add-on/SMS_monitor.py:206-225 | the frame a message writes is its command's frame, exactly when the command is registered and the port is ready |
| BridgeFacts.SubscribePurgeCommute | sms_gamer_ups_monitor.py:301-305 | subscribing to the command topic and purging it leave the broker in the same state in either order: the topic subscribed and nothing retained there |
| BridgeFacts.OnConnectAsWrittenSameBroker | sms_gamer_ups_monitor.py:293-310 | the connect callback as written leaves the broker exactly as the corrected one does, whatever the return code |
| BridgeFacts.ConnectMqttAsWrittenSameBroker | add-on/SMS_monitor.py:228-249 | connect_mqtt as written leaves the broker exactly as the corrected one does, in both programs |
| BridgeFacts.OnConnectClearsCommands | sms_gamer_ups_monitor.py:299-306 | after a successful connect, as written and corrected, the command topic is subscribed and retains nothing |
| BridgeFacts.OnConnectAnnounces | sms_gamer_ups_monitor.py:307-308 | after a successful connect, as written and corrected, every entity's config topic retains that entity's config document |
| BridgeFacts.OnConnectLeavesOthers | sms_gamer_ups_monitor.py:293-310 | as written and corrected, every other topic keeps what the broker retained |
| BridgeFacts.OnConnectIdempotent | sms_gamer_ups_monitor.py:293-310 | running the connect callback again on reconnect, as written or corrected, leaves the broker as the first run left it |
| BridgeFacts.OnConnectRefused | sms_gamer_ups_monitor.py:309-310 | a refused connection leaves the broker unchanged, as written and corrected |
| BridgeFacts.ConnectMqttBroker | add-on/SMS_monitor.py:228-249 | after the add-on connects, as written and corrected, the command topic is subscribed and retains nothing; the improved service's connect_mqtt changes nothing at the broker |
| BridgeFacts.RetainedCommandActedOn | sms_gamer_ups_monitor.py:331-338 | a delivered command message naming a key of the table writes that key's frame when the port is ready |
| BridgeFacts.OnConnectAsWrittenReplays | sms_gamer_ups_monitor.py:299-306 | as written, a command retained on the command topic is the first message the broker sends back on connect, and the handler writes its frame to a ready port |
| BridgeFacts.ConnectMqttAsWrittenReplays | add-on/SMS_monitor.py:233-242 | as written, the add-on's connect brings back the retained command first, and the handler writes its frame to a ready port |
| BridgeFacts.PurgeFirstDeliversNothingPosted | sms_gamer_ups_monitor.py:299-308 | purging the command topic before subscribing to it, then publishing only the bridge's own documents, brings back no message another client posted |
| BridgeFacts.OnConnectReplaysNothing | sms_gamer_ups_monitor.py:293-310 | with the purge first, no message the broker sends during the connect callback writes anything or publishes, whatever it retained |
| BridgeFacts.ConnectMqttReplaysNothing | add-on/SMS_monitor.py:228-249 | with the purge first, no message the broker sends during either program's connect_mqtt writes anything or publishes, whatever it retained |
| BridgeFacts.StartAnnounces | add-on/SMS_monitor.py:399-407 | before polling, the add-on publishes each entity's config exactly once, and the improved service publishes none |
| BridgeFacts.DisconnectBroker | sms_gamer_ups_monitor.py:159-170 | disconnecting leaves the broker unchanged |

## Findings

| source | as written | input that shows it | evidently intended | confidence | as-written member | corrected member |
|---|---|---|---|---|---|---|
| sms_gamer_ups_monitor.py:299-306 | the connect callback subscribes to `<base>/command` and only then publishes the zero-byte retained purge of it | the broker retains `{"command": "R"}` on `<base>/command` when the service connects or reconnects: the subscribe makes the broker send it back before the purge removes it, and the handler writes the 'R' frame to the UPS | purge the command topic first and subscribe after, so that a retained command is gone before it can be delivered | not executed | BridgeFacts.OnConnectAsWrittenReplays | BridgeFacts.OnConnectReplaysNothing |
| add-on/SMS_monitor.py:233-242 | `connect_mqtt` subscribes to `<base>/command` and then publishes the purge, which its comment says keeps reboot commands from being executed again | the broker retains `{"command": "R"}` on `<base>/command` when the add-on starts: the subscribe brings it back before the purge, and the handler writes the 'R' frame to the UPS | purge first, then subscribe | not executed | BridgeFacts.ConnectMqttAsWrittenReplays | BridgeFacts.ConnectMqttReplaysNothing |

## Left out

- Serial I/O: opening the port (`connect`), writes, reads and timeouts. The port's answer to each
  exchange is the input `SerialResult`; opening the port is not part of this model.
- `time.sleep`: the sleeps are `Delay` tags in the trace.
- Logging.
- `time.strftime` timestamps.
- paho-mqtt internals: the network thread, `reconnect_delay_set`, keep-alive, and QoS delivery.
  The broker model keeps only subscriptions and retained messages, and sends back only what the
  bridge's own actions cause. Topics match exactly; wildcards, sessions and messages other
  clients publish while the bridge connects are left out.
- Concurrency between the MQTT callback thread and the polling loop. Neither program has a lock,
  so each operation is modelled as if it ran alone.
- Floating point: the `/ 10.0` and `round(…, 1)` of the decoder and `render_status_humano`.
  Readings stay integer tenths.
- JSON: parsing inbound payloads and serialising discovery and status documents.
  - An inbound payload is an already-parsed `Option<JsonValue>` (`None` when `json.loads`
    fails). JSON numbers are integers.
  - A discovery document is identified by its unique id and a status document by the decoded
    status. Their other fields are left out.
- `msg.payload.decode()` in the log line that precedes the handler's `try`: a payload that is
  not UTF-8 would raise there. Inbound payloads are modelled after decoding.
- `Bridge.Dispatch`: `command_key in SMS_GAMER_COMMANDS_PARAMS` raises `TypeError` for a list or
  an object. This is modelled as the `Unhashable` drop. Other exceptions of the handler have no
  counterpart.
- The loop's outer `except Exception` and `KeyboardInterrupt`: a run is a finite sequence of
  cycles, one per answer of the port.
- Bridge.Poll: counts writes and status publishes over the cycles rather than listing the
  actions of each cycle; `Bridge.PollCyclePublishes` and `Bridge.PollCycleWrites` state those.
- Bridge.MonitorLoop: counts writes and status publishes rather than listing every action of
  every cycle; the per-cycle contents are stated by `Bridge.PollCyclePublishes` and
  `Bridge.PollCycleWrites`.
- Bridge.Start / Bridge.MonitorLoop: the add-on's start-up is modelled in the corrected order,
  purge before subscribe, because it calls the corrected `Bridge.ConnectMqtt`. The source's order
  is `Bridge.ConnectMqttAsWritten`, and the "## Findings" row shows what it changes. No contract of
  `Start`, `StartQuiet`, `BridgeFacts.StartAnnounces` or `MonitorLoop` depends on that order.
- Bridge.Transfer: a reply may be longer than 64 bytes, although `serial.read(64)` returns at most
  64; the limit is kept only as the `Read(64)` action.
- Lower-casing of flag keys is ASCII only, which covers every flag name.
- `main()`, argument parsing, the `--hex` mode and `raw_monitor_loop`. The add-on's `main` also
  refers to names it never defines, which is plumbing outside this model.
