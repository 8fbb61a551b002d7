/**
  What the bridge's operations mean for the two parties it serves: which
  inbound messages reach the UPS, and what the broker holds after the
  bridge connects or disconnects.
 */
module BridgeFacts {
  import opened Base
  import opened Codec
  import opened Registry
  import RegistryFacts
  import opened Trace
  import opened TraceFacts
  import opened Broker
  import opened BrokerFacts
  import opened Discovery
  import opened DiscoveryFacts
  import opened Json
  import opened Bridge

  // ---------------------------------------------------------------------------
  // Inbound commands
  // ---------------------------------------------------------------------------

  /** A message is acted on exactly when it is an object whose "command" is
      a string naming a predefined command, and then that command is the one
      sent. Truthiness adds nothing because no table has the empty key. */
  lemma DispatchExact(v: Variant, payload: Option<JsonValue>)
    ensures Dispatch(TableOf(v), payload).Send?
        <==> CommandKey(payload).Some? && CommandKey(payload).value in TableOf(v)
    ensures Dispatch(TableOf(v), payload).Send? ==> Dispatch(TableOf(v), payload).key == CommandKey(payload).value
  {
    RegistryFacts.EmptyKeyAbsent(v);
  }

  /** Why a message is dropped, case by case, in the order the handler checks. */
  lemma DispatchReasons(table: Table, payload: Option<JsonValue>)
    ensures payload.None? ==> Dispatch(table, payload) == Drop(NotJson)
    ensures payload.Some? && !payload.value.JObj? ==> Dispatch(table, payload) == Drop(NotAnObject)
    ensures payload.Some? && payload.value.JObj? && Get(payload.value.members, "command").None?
            ==> Dispatch(table, payload) == Drop(NoCommand)
    ensures payload.Some? && payload.value.JObj? && Get(payload.value.members, "command").Some?
            && Truthy(Get(payload.value.members, "command").value)
            && !Hashable(Get(payload.value.members, "command").value)
            ==> Dispatch(table, payload) == Drop(Unhashable)
  {
  }

  /** The message a Home Assistant button or the beep switch publishes. */
  function CommandMessage(k: string): Option<JsonValue>
  {
    Some(JObj([("command", JStr(k))]))
  }

  /** Pressing any announced button, or toggling the beep switch, makes the
      bridge send that entity's command, in both programs. */
  lemma AnnouncedCommandsDispatch(v: Variant, e: Entity)
    requires e in Entities() && e.command.Some?
    ensures Dispatch(TableOf(v), CommandMessage(e.command.value)) == Send(e.command.value)
  {
    AnnouncedCommandsRegistered(v);
    var members := [("command", JStr(e.command.value))];
    assert Get(members, "command") == Some(JStr(e.command.value));
    DispatchExact(v, CommandMessage(e.command.value));
  }

  /** The two experimental shutdown keys are acted on by the add-on only. */
  lemma ExperimentalShutdownOnlyInAddOn(k: string)
    requires k == "zzz" || k == "zz1"
    ensures Dispatch(TableOf(AddOn), CommandMessage(k)) == Send(k)
    ensures Dispatch(TableOf(Improved), CommandMessage(k)) == Drop(Unknown)
  {
    RegistryFacts.AddOnExtendsCanonical();
    assert Get([("command", JStr(k))], "command") == Some(JStr(k));
  }

  /** The one frame an inbound message can write is the frame of the command
      it names, and only when the port is ready. */
  lemma OnMessageWrites(v: Variant, s: Session, payload: Option<JsonValue>, io: SerialResult)
    ensures Frames(OnMessage(v, s, payload, io))
         == if CommandKey(payload).Some? && CommandKey(payload).value in TableOf(v) && Ready(s)
            then [BuildFrame(TableOf(v)[CommandKey(payload).value])] else []
  {
    DispatchExact(v, payload);
  }

  // ---------------------------------------------------------------------------
  // The broker
  // ---------------------------------------------------------------------------

  /** Subscribing to the command topic and purging it leave the broker in
      the same state in either order; only what is delivered differs. */
  lemma SubscribePurgeCommute(cfg: Config, b: Broker)
    ensures Apply(b, [Subscribe(CommandTopic(cfg)), Purge(cfg)]) == Apply(b, [Purge(cfg), Subscribe(CommandTopic(cfg))])
    ensures Apply(b, [Purge(cfg), Subscribe(CommandTopic(cfg))])
         == Broker(b.subscriptions + {CommandTopic(cfg)}, b.retained - {CommandTopic(cfg)})
  {
    var t := CommandTopic(cfg);
    ApplyTwo(b, Subscribe(t), Purge(cfg));
    ApplyTwo(b, Purge(cfg), Subscribe(t));
    var after := Broker(b.subscriptions + {t}, b.retained - {t});
    assert Step(Step(b, Subscribe(t)), Purge(cfg)) == after;
    assert Step(Step(b, Purge(cfg)), Subscribe(t)) == after;
  }

  /** The connect callback as written leaves the broker exactly as the
      corrected one does, so every fact below about the broker after
      `OnConnect` holds of the program as written too. */
  lemma OnConnectAsWrittenSameBroker(cfg: Config, rc: int, b: Broker)
    ensures Apply(b, OnConnectAsWritten(cfg, rc)) == Apply(b, OnConnect(cfg, rc))
  {
    if rc == 0 {
      var t := CommandTopic(cfg);
      var d := DiscoveryActions(cfg, true);
      assert OnConnectAsWritten(cfg, rc) == [Subscribe(t), Purge(cfg)] + d;
      assert OnConnect(cfg, rc) == [Purge(cfg), Subscribe(t)] + d;
      ApplyAppend(b, [Subscribe(t), Purge(cfg)], d);
      ApplyAppend(b, [Purge(cfg), Subscribe(t)], d);
      SubscribePurgeCommute(cfg, b);
    }
  }

  /** `connect_mqtt` as written leaves the broker exactly as the corrected one does. */
  lemma ConnectMqttAsWrittenSameBroker(v: Variant, cfg: Config, s: Session, connectOk: bool, b: Broker)
    ensures Apply(b, ConnectMqttAsWritten(v, cfg, s, connectOk).actions) == Apply(b, ConnectMqtt(v, cfg, s, connectOk).actions)
  {
    if v.AddOn? && connectOk {
      var t := CommandTopic(cfg);
      var head := [MqttConnect, LoopStart];
      assert ConnectMqttAsWritten(v, cfg, s, connectOk).actions == head + [Subscribe(t), Purge(cfg)];
      assert ConnectMqtt(v, cfg, s, connectOk).actions == head + [Purge(cfg), Subscribe(t)];
      ApplyAppend(b, head, [Subscribe(t), Purge(cfg)]);
      ApplyAppend(b, head, [Purge(cfg), Subscribe(t)]);
      SubscribePurgeCommute(cfg, Apply(b, head));
    }
  }

  /** After a successful connect the command topic is subscribed and holds no
      retained command, in either order. */
  lemma OnConnectClearsCommands(cfg: Config, b: Broker)
    ensures CommandTopic(cfg) in Apply(b, OnConnect(cfg, 0)).subscriptions
    ensures CommandTopic(cfg) !in Apply(b, OnConnect(cfg, 0)).retained
    ensures CommandTopic(cfg) in Apply(b, OnConnectAsWritten(cfg, 0)).subscriptions
    ensures CommandTopic(cfg) !in Apply(b, OnConnectAsWritten(cfg, 0)).retained
  {
    OnConnectAsWrittenSameBroker(cfg, 0, b);
    var acts := OnConnect(cfg, 0);
    var head := [Purge(cfg), Subscribe(CommandTopic(cfg))];
    var d := DiscoveryActions(cfg, true);
    assert acts == head + d;
    ApplySubscriptions(b, acts);
    assert acts[1].Subscribe?;
    DiscoveryQuiet(cfg, true);
    PublishedToEmpty(d, CommandTopic(cfg));
    LastRetainedNone(d, CommandTopic(cfg));
    LastRetainedAppend(head, d, CommandTopic(cfg));
    assert LastRetained(head, CommandTopic(cfg)) == Some(Empty);
    ApplyRetained(b, acts, CommandTopic(cfg));
  }

  /** After a successful connect, in either order, every entity's config
      topic retains that entity's config document, whatever the broker held
      before. */
  lemma OnConnectAnnounces(cfg: Config, b: Broker, i: nat)
    requires i < |Entities()|
    ensures Lookup(Apply(b, OnConnect(cfg, 0)).retained, ConfigTopic(cfg, Entities()[i]))
         == Some(ConfigDoc(UniqueId(cfg, Entities()[i])))
    ensures Lookup(Apply(b, OnConnectAsWritten(cfg, 0)).retained, ConfigTopic(cfg, Entities()[i]))
         == Some(ConfigDoc(UniqueId(cfg, Entities()[i])))
  {
    OnConnectAsWrittenSameBroker(cfg, 0, b);
    var acts := OnConnect(cfg, 0);
    var head := [Purge(cfg), Subscribe(CommandTopic(cfg))];
    var d := DiscoveryActions(cfg, true);
    var t := ConfigTopic(cfg, Entities()[i]);
    assert acts == head + d;
    DiscoveryTopicsDistinct(cfg);
    assert d[i] == Announce(cfg, Entities()[i]);
    LastRetainedSingle(d, i, t);
    LastRetainedAppend(head, d, t);
    ApplyRetained(b, acts, t);
  }

  /** A topic that is neither the command topic nor a config topic keeps
      whatever the broker retained for it, in either order. */
  lemma OnConnectLeavesOthers(cfg: Config, b: Broker, t: string)
    requires t != CommandTopic(cfg)
    requires forall e :: e in Entities() ==> t != ConfigTopic(cfg, e)
    ensures Lookup(Apply(b, OnConnect(cfg, 0)).retained, t) == Lookup(b.retained, t)
    ensures Lookup(Apply(b, OnConnectAsWritten(cfg, 0)).retained, t) == Lookup(b.retained, t)
  {
    OnConnectAsWrittenSameBroker(cfg, 0, b);
    var acts := OnConnect(cfg, 0);
    var d := DiscoveryActions(cfg, true);
    assert acts == [Purge(cfg), Subscribe(CommandTopic(cfg))] + d;
    forall j | 0 <= j < |acts| ensures !(acts[j].Publish? && acts[j].retain && acts[j].topic == t) {
      if j >= 2 {
        assert acts[j] == d[j - 2];
        assert Entities()[j - 2] in Entities();
      }
    }
    LastRetainedNone(acts, t);
    ApplyRetained(b, acts, t);
  }

  /** Reconnecting, which runs the connect callback again, leaves the broker
      as the first connect left it, in either order. */
  lemma OnConnectIdempotent(cfg: Config, b: Broker)
    ensures Apply(Apply(b, OnConnect(cfg, 0)), OnConnect(cfg, 0)) == Apply(b, OnConnect(cfg, 0))
    ensures Apply(Apply(b, OnConnectAsWritten(cfg, 0)), OnConnectAsWritten(cfg, 0)) == Apply(b, OnConnectAsWritten(cfg, 0))
  {
    ApplyIdempotent(b, OnConnect(cfg, 0));
    ApplyIdempotent(b, OnConnectAsWritten(cfg, 0));
  }

  /** A refused connection changes nothing at the broker, in either order. */
  lemma OnConnectRefused(cfg: Config, rc: int, b: Broker)
    requires rc != 0
    ensures Apply(b, OnConnect(cfg, rc)) == b
    ensures Apply(b, OnConnectAsWritten(cfg, rc)) == b
  {
    ApplyQuiet(b, OnConnect(cfg, rc));
  }

  /** The add-on subscribes to and clears the command topic as soon as it
      has connected, in either order; the improved service leaves this to the
      connect callback. */
  lemma ConnectMqttBroker(v: Variant, cfg: Config, s: Session, connectOk: bool, b: Broker)
    ensures v.AddOn? && connectOk ==>
              && CommandTopic(cfg) in Apply(b, ConnectMqtt(v, cfg, s, connectOk).actions).subscriptions
              && CommandTopic(cfg) !in Apply(b, ConnectMqtt(v, cfg, s, connectOk).actions).retained
    ensures v.Improved? || !connectOk ==> Apply(b, ConnectMqtt(v, cfg, s, connectOk).actions) == b
    ensures v.AddOn? && connectOk ==>
              && CommandTopic(cfg) in Apply(b, ConnectMqttAsWritten(v, cfg, s, connectOk).actions).subscriptions
              && CommandTopic(cfg) !in Apply(b, ConnectMqttAsWritten(v, cfg, s, connectOk).actions).retained
    ensures v.Improved? || !connectOk ==> Apply(b, ConnectMqttAsWritten(v, cfg, s, connectOk).actions) == b
  {
    ConnectMqttAsWrittenSameBroker(v, cfg, s, connectOk, b);
    var acts := ConnectMqtt(v, cfg, s, connectOk).actions;
    if v.AddOn? && connectOk {
      assert acts == [MqttConnect, LoopStart, Purge(cfg), Subscribe(CommandTopic(cfg))];
      ApplySubscriptions(b, acts);
      assert acts[3].Subscribe?;
      ApplyRetained(b, acts, CommandTopic(cfg));
    } else {
      ApplyQuiet(b, acts);
    }
  }

  // ---------------------------------------------------------------------------
  // Commands retained at connect time
  // ---------------------------------------------------------------------------

  /** Subscribing to the command topic before purging it, as both programs
      do, makes the broker send back the command it retains there before the
      purge removes it, and the handler acts on it: a retained reboot or
      shutdown command is carried out again on every connect. */
  lemma OnConnectAsWrittenReplays(cfg: Config, b: Broker, k: string, s: Session, io: SerialResult)
    requires Lookup(b.retained, CommandTopic(cfg)) == Some(Posted(CommandMessage(k).value))
    ensures var ds := Delivered(b, OnConnectAsWritten(cfg, 0));
      && |ds| >= 1 && ds[0] == Delivery(CommandTopic(cfg), Posted(CommandMessage(k).value))
      && (k in TableOf(Improved) && Ready(s) ==>
            Frames(OnMessage(Improved, s, Inbound(ds[0].payload), io)) == [BuildFrame(TableOf(Improved)[k])])
  {
    var acts := OnConnectAsWritten(cfg, 0);
    assert acts[0] == Subscribe(CommandTopic(cfg));
    assert Delivered(b, acts) == Deliver(b, acts[0]) + Delivered(Step(b, acts[0]), acts[1..]);
    RetainedCommandActedOn(Improved, k, s, io);
  }

  /** The same for the add-on's `connect_mqtt`. */
  lemma ConnectMqttAsWrittenReplays(cfg: Config, s0: Session, b: Broker, k: string, s: Session, io: SerialResult)
    requires Lookup(b.retained, CommandTopic(cfg)) == Some(Posted(CommandMessage(k).value))
    ensures var ds := Delivered(b, ConnectMqttAsWritten(AddOn, cfg, s0, true).actions);
      && |ds| >= 1 && ds[0] == Delivery(CommandTopic(cfg), Posted(CommandMessage(k).value))
      && (k in TableOf(AddOn) && Ready(s) ==>
            Frames(OnMessage(AddOn, s, Inbound(ds[0].payload), io)) == [BuildFrame(TableOf(AddOn)[k])])
  {
    var t := CommandTopic(cfg);
    var acts := ConnectMqttAsWritten(AddOn, cfg, s0, true).actions;
    assert acts == [MqttConnect] + ([LoopStart] + ([Subscribe(t)] + [Purge(cfg)]));
    DeliveredCons(b, MqttConnect, [LoopStart] + ([Subscribe(t)] + [Purge(cfg)]));
    DeliveredCons(b, LoopStart, [Subscribe(t)] + [Purge(cfg)]);
    DeliveredCons(b, Subscribe(t), [Purge(cfg)]);
    RetainedCommandActedOn(AddOn, k, s, io);
  }

  /** A delivered command message is handled like the message itself. */
  lemma RetainedCommandActedOn(v: Variant, k: string, s: Session, io: SerialResult)
    ensures k in TableOf(v) && Ready(s) ==>
              Frames(OnMessage(v, s, Inbound(Posted(CommandMessage(k).value)), io)) == [BuildFrame(TableOf(v)[k])]
  {
    assert Get([("command", JStr(k))], "command") == Some(JStr(k));
    OnMessageWrites(v, s, CommandMessage(k), io);
  }

  /** Purging the command topic before subscribing to it, then publishing
      only the bridge's own documents, brings back no posted message,
      whatever the broker retained. */
  lemma PurgeFirstDeliversNothingPosted(cfg: Config, b: Broker, rest: seq<Action>)
    requires forall i :: 0 <= i < |rest| ==> !rest[i].Subscribe? && !(rest[i].Publish? && rest[i].payload.Posted?)
    ensures forall j :: 0 <= j < |Delivered(b, [Purge(cfg), Subscribe(CommandTopic(cfg))] + rest)| ==>
              !Delivered(b, [Purge(cfg), Subscribe(CommandTopic(cfg))] + rest)[j].payload.Posted?
  {
    var t := CommandTopic(cfg);
    var b1 := Step(b, Purge(cfg));
    assert [Purge(cfg), Subscribe(t)] + rest == [Purge(cfg)] + ([Subscribe(t)] + rest);
    DeliveredCons(b, Purge(cfg), [Subscribe(t)] + rest);
    DeliveredCons(b1, Subscribe(t), rest);
    assert t !in b1.retained;
    DeliveredNothingPosted(Step(b1, Subscribe(t)), rest);
  }

  /** The handler ignores every message the bridge itself publishes. */
  lemma OwnMessagesIgnored(v: Variant, s: Session, ds: seq<Delivery>, io: SerialResult)
    requires forall j :: 0 <= j < |ds| ==> !ds[j].payload.Posted?
    ensures forall j :: 0 <= j < |ds| ==> OnMessage(v, s, Inbound(ds[j].payload), io) == []
  {
  }

  /** With the purge first, nothing the broker sends while the improved
      service's connect callback runs reaches the UPS, whatever it retained. */
  lemma OnConnectReplaysNothing(v: Variant, cfg: Config, rc: int, b: Broker, s: Session, io: SerialResult)
    ensures var ds := Delivered(b, OnConnect(cfg, rc));
      forall j :: 0 <= j < |ds| ==> OnMessage(v, s, Inbound(ds[j].payload), io) == []
  {
    if rc == 0 {
      var d := DiscoveryActions(cfg, true);
      assert forall i :: 0 <= i < |d| ==> d[i] == Announce(cfg, Entities()[i]);
      PurgeFirstDeliversNothingPosted(cfg, b, d);
    }
    OwnMessagesIgnored(v, s, Delivered(b, OnConnect(cfg, rc)), io);
  }

  /** With the purge first, nothing the broker sends while either program's
      `connect_mqtt` runs reaches the UPS, whatever it retained. */
  lemma ConnectMqttReplaysNothing(v: Variant, cfg: Config, s0: Session, connectOk: bool, b: Broker,
                                  s: Session, io: SerialResult)
    ensures var ds := Delivered(b, ConnectMqtt(v, cfg, s0, connectOk).actions);
      forall j :: 0 <= j < |ds| ==> OnMessage(v, s, Inbound(ds[j].payload), io) == []
  {
    var acts := ConnectMqtt(v, cfg, s0, connectOk).actions;
    if v.AddOn? && connectOk {
      var t := CommandTopic(cfg);
      assert acts == [MqttConnect] + ([LoopStart] + ([Purge(cfg), Subscribe(t)] + []));
      DeliveredCons(b, MqttConnect, [LoopStart] + ([Purge(cfg), Subscribe(t)] + []));
      DeliveredCons(b, LoopStart, [Purge(cfg), Subscribe(t)] + []);
      PurgeFirstDeliversNothingPosted(cfg, b, []);
    } else {
      DeliveredNothingPosted(b, acts);
    }
    OwnMessagesIgnored(v, s, Delivered(b, acts), io);
  }

  /** The add-on announces every entity exactly once before it starts
      polling; the improved service announces nothing there (its connect
      callback does). */
  lemma StartAnnounces(v: Variant, cfg: Config, s: Session, connectOk: bool, i: nat)
    requires i < |Entities()|
    ensures var st := Start(v, cfg, s, connectOk);
      && (st.started && v.AddOn? ==>
            PublishedTo(st.actions, ConfigTopic(cfg, Entities()[i])) == [Announce(cfg, Entities()[i])])
      && (v.Improved? ==> PublishedTo(st.actions, ConfigTopic(cfg, Entities()[i])) == [])
  {
    var st := Start(v, cfg, s, connectOk);
    var t := ConfigTopic(cfg, Entities()[i]);
    ConfigTopicIsNotBridgeTopic(cfg, Entities()[i]);
    if s.connected {
      var c := if s.hasClient then Connection(s, [], true) else ConnectMqtt(v, cfg, s, connectOk);
      if !s.hasClient {
        ConnectQuiet(v, cfg, s, connectOk, t);
      }
      if c.ok {
        var tail := StartTail(v, cfg);
        PublishedToAppend(c.actions, tail, t);
        if v.AddOn? {
          DiscoveryTopicsDistinct(cfg);
          assert tail[i] == Announce(cfg, Entities()[i]);
          PublishedToSingle(tail, i, t);
        } else {
          PublishedToOne(Delay(StartupDelayMs), t);
        }
      }
    }
  }

  /** Disconnecting leaves the broker's subscriptions and retained messages alone. */
  lemma DisconnectBroker(v: Variant, s: Session, b: Broker)
    ensures Apply(b, Disconnect(v, s).actions) == b
  {
    var acts := Disconnect(v, s).actions;
    assert forall i :: 0 <= i < |acts| ==> acts[i] in {CloseSerial, MqttDisconnect, LoopStop};
    ApplyQuiet(b, acts);
  }
}
