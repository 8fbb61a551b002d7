/**
  The bridge between the serial port and the broker: the serial exchanges,
  the inbound command handler, the MQTT callbacks, one cycle of the polling
  loop and the shutdown. Each operation returns the actions it performs;
  the serial port's behaviour is an input.
 */
module Bridge {
  import opened Base
  import opened Codec
  import opened Registry
  import RegistryFacts
  import opened Trace
  import opened TraceFacts
  import opened Discovery
  import opened DiscoveryFacts
  import opened Json

  datatype Port = Port(open: bool)

  /** `self.serial` (absent until `connect`), `self.connected` and whether
      `self.mqtt_client` has been created. */
  datatype Session = Session(port: Option<Port>, connected: bool, hasClient: bool)

  /** The service only marks itself connected after opening the port. */
  predicate Valid(s: Session)
  {
    s.connected ==> s.port.Some? && s.port.value.open
  }

  /** `self.connected and self.serial`: the guard of both send operations. */
  predicate Ready(s: Session)
  {
    s.connected && s.port.Some?
  }

  /** What the port does with one write-and-read: the bytes read back (possibly
      none, on timeout), or an exception from the write or from the read.
      `serial.read(64)` returns at most 64 bytes; the model allows a reply of
      any length, and the 64-byte limit appears only as the `Read(64)` action. */
  datatype SerialResult = Received(data: seq<byte>) | WriteFailed | ReadFailed

  /** A reply (`None` when nothing usable came back) and the actions taken. */
  datatype Exchange = Exchange(response: Option<seq<byte>>, actions: seq<Action>)

  const SimpleSettleMs: nat := 200
  const PredefinedSettleMs: nat := 1000
  const ReadSize: nat := 64
  const StartupDelayMs: nat := 2000

  /** Write the frame, wait, read up to 64 bytes; an empty read or an
      exception yields no reply. */
  function Transfer(frame: seq<byte>, settleMs: nat, io: SerialResult): (ex: Exchange)
    ensures Frames(ex.actions) == [frame]
    ensures ex.response.Some? <==> io.Received? && |io.data| > 0
    ensures ex.response.Some? ==> ex.response.value == io.data
    ensures !TouchesBroker(ex.actions)
  {
    var rest := if io.WriteFailed? then [] else [Delay(settleMs), Read(ReadSize)];
    FramesEmpty(rest);
    FramesOne(Write(frame));
    FramesAppend([Write(frame)], rest);
    Exchange(if io.Received? && |io.data| > 0 then Some(io.data) else None, [Write(frame)] + rest)
  }

  /** After a successful write the port is given `settleMs` to answer and
      then read once, for at most 64 bytes; a failed write is not followed
      by a read. */
  lemma TransferReads(frame: seq<byte>, settleMs: nat, io: SerialResult)
    ensures Read(ReadSize) in Transfer(frame, settleMs, io).actions <==> !io.WriteFailed?
    ensures !io.WriteFailed? ==>
              Transfer(frame, settleMs, io).actions == [Write(frame), Delay(settleMs), Read(ReadSize)]
  {
  }

  datatype SimpleOutcome = Unsupported | Done(ex: Exchange)

  /** `send_simple_command`: only Q, I and F are accepted (anything else is
      the `ValueError` raised before the port is touched); without a ready
      port nothing is written. */
  function SendSimple(s: Session, c: string, io: SerialResult): (r: SimpleOutcome)
    ensures r.Unsupported? <==> c !in {"Q", "I", "F"}
    ensures r.Done? ==> Frames(r.ex.actions) == (if Ready(s) then [BuildFrame(SimpleCommand(c).value)] else [])
    ensures r.Done? && r.ex.response.Some? ==> Ready(s) && io == Received(r.ex.response.value) && |io.data| > 0
    ensures r.Done? && Ready(s) && io.Received? && |io.data| > 0 ==> r.ex.response == Some(io.data)
    ensures r.Done? ==> !TouchesBroker(r.ex.actions)
  {
    match SimpleCommand(c)
    case None => Unsupported
    case Some(cmd) =>
      if !Ready(s) then Done(Exchange(None, []))
      else Done(Transfer(BuildFrame(cmd), SimpleSettleMs, io))
  }

  /** `send_predefined_command`: an unknown key or a port that is not ready
      means no write and no reply; otherwise the key's frame is written once. */
  function SendPredefined(table: Table, s: Session, key: string, io: SerialResult): (ex: Exchange)
    ensures Frames(ex.actions) == (if key in table && Ready(s) then [BuildFrame(table[key])] else [])
    ensures ex.response.Some? ==> key in table && Ready(s) && io == Received(ex.response.value) && |io.data| > 0
    ensures key in table && Ready(s) && io.Received? && |io.data| > 0 ==> ex.response == Some(io.data)
    ensures !TouchesBroker(ex.actions)
  {
    if key !in table || !Ready(s) then Exchange(None, [])
    else Transfer(BuildFrame(table[key]), PredefinedSettleMs, io)
  }

  /** A query sent through `send_simple_command` writes the same frame as the
      predefined command of the same key, in both programs; only the settle
      delay differs. */
  lemma SimpleMatchesPredefined(v: Variant, s: Session, c: string, io: SerialResult)
    requires c in {"Q", "I", "F"}
    ensures SendSimple(s, c, io).Done?
    ensures Frames(SendSimple(s, c, io).ex.actions) == Frames(SendPredefined(TableOf(v), s, c, io).actions)
    ensures Ready(s) && !io.WriteFailed? ==>
              && Delay(SimpleSettleMs) in SendSimple(s, c, io).ex.actions
              && Delay(PredefinedSettleMs) in SendPredefined(TableOf(v), s, c, io).actions
  {
    RegistryFacts.SimpleAgreesWithTable(v, c);
    if Ready(s) && !io.WriteFailed? {
      assert SendSimple(s, c, io).ex.actions[1] == Delay(SimpleSettleMs);
      assert SendPredefined(TableOf(v), s, c, io).actions[1] == Delay(PredefinedSettleMs);
    }
  }

  // ---------------------------------------------------------------------------
  // Inbound commands
  // ---------------------------------------------------------------------------

  /** Why a message is dropped: the payload is not JSON (this includes the
      zero-byte purge message), is not an object (`.get` raises), has no
      truthy "command", has an unhashable one, or names no predefined command. */
  datatype DropReason = NotJson | NotAnObject | NoCommand | Unhashable | Unknown

  datatype Handling = Send(key: string) | Drop(reason: DropReason)

  /** The decision `_on_mqtt_message` takes; `None` stands for a payload
      `json.loads` rejects. */
  function Dispatch(table: Table, payload: Option<JsonValue>): (h: Handling)
    ensures h.Send? ==> h.key in table
  {
    match payload
    case None => Drop(NotJson)
    case Some(v) =>
      if !v.JObj? then Drop(NotAnObject)
      else
        match Get(v.members, "command")
        case None => Drop(NoCommand)
        case Some(c) =>
          if !Truthy(c) then Drop(NoCommand)
          else if !Hashable(c) then Drop(Unhashable)
          else if c.JStr? && c.s in table then Send(c.s)
          else Drop(Unknown)
  }

  /** The command string a payload carries, if it is an object whose
      "command" member is a string. */
  function CommandKey(payload: Option<JsonValue>): Option<string>
  {
    if payload.Some? && payload.value.JObj? then
      match Get(payload.value.members, "command")
      case Some(JStr(k)) => Some(k)
      case _ => None
    else None
  }

  /** How the handler reads a message the broker delivers: a zero-byte
      payload is not JSON, a discovery or status document is an object
      without a "command" member, and a posted message is its JSON value. */
  function Inbound(p: Payload): (j: Option<JsonValue>)
    ensures p.Empty? <==> j.None?
    ensures !p.Posted? && j.Some? ==> j.value.JObj? && Get(j.value.members, "command").None?
    ensures p.Posted? ==> j == Some(p.body)
  {
    match p
    case Empty => None
    case ConfigDoc(uid) => Some(JObj([("unique_id", JStr(uid))]))
    case StatusDoc(_) => Some(JObj([]))
    case Posted(body) => Some(body)
  }

  /** `_on_mqtt_message`: at most one predefined command reaches the port,
      and the handler never publishes. */
  function OnMessage(v: Variant, s: Session, payload: Option<JsonValue>, io: SerialResult): (acts: seq<Action>)
    ensures |Frames(acts)| <= 1
    ensures !TouchesBroker(acts)
  {
    match Dispatch(TableOf(v), payload)
    case Send(k) => SendPredefined(TableOf(v), s, k, io).actions
    case Drop(_) => []
  }

  // ---------------------------------------------------------------------------
  // MQTT connection
  // ---------------------------------------------------------------------------

  /** Removes the retained message of the command topic (a zero-byte
      retained publish, section 3.3.1.3 of MQTT 3.1.1). */
  function Purge(cfg: Config): Action
  {
    Publish(CommandTopic(cfg), Empty, 1, true)
  }

  /** The discovery announcements write nothing and publish neither to the
      command topic nor to the status topic. */
  lemma DiscoveryQuiet(cfg: Config, hasClient: bool)
    ensures Frames(DiscoveryActions(cfg, hasClient)) == []
    ensures PublishedTo(DiscoveryActions(cfg, hasClient), CommandTopic(cfg)) == []
    ensures PublishedTo(DiscoveryActions(cfg, hasClient), StatusTopic(cfg)) == []
  {
    var d := DiscoveryActions(cfg, hasClient);
    forall i | 0 <= i < |d|
      ensures d[i].topic != CommandTopic(cfg) && d[i].topic != StatusTopic(cfg)
    {
      ConfigTopicIsNotBridgeTopic(cfg, Entities()[i]);
    }
    PublishedToEmpty(d, CommandTopic(cfg));
    PublishedToEmpty(d, StatusTopic(cfg));
    FramesEmpty(d);
  }

  /** `_on_mqtt_connect` of the improved service, with the purge moved
      before the subscribe (see `OnConnectAsWritten`). On success: purge the
      command topic, subscribe to it, announce every entity; the callback
      always has a client. Otherwise nothing. */
  function OnConnect(cfg: Config, rc: int): (acts: seq<Action>)
    ensures rc == 0 ==> |acts| >= 2 && acts[0] == Purge(cfg) && acts[1] == Subscribe(CommandTopic(cfg))
    ensures rc == 0 ==> |acts| == 2 + |Entities()|
    ensures rc == 0 ==> forall i :: 2 <= i < |acts| ==>
              acts[i].Publish? && acts[i].retain && acts[i].topic == ConfigTopic(cfg, Entities()[i - 2])
    ensures rc == 0 ==> PublishedTo(acts, CommandTopic(cfg)) == [Purge(cfg)]
    ensures rc != 0 ==> !TouchesBroker(acts)
    ensures |Frames(acts)| == 0
  {
    if rc != 0 then []
    else
      var d := DiscoveryActions(cfg, true);
      DiscoveryQuiet(cfg, true);
      [Purge(cfg), Subscribe(CommandTopic(cfg))] + d
  }

  /** `_on_mqtt_connect` as the improved service orders it: subscribe first,
      purge second. It differs from `OnConnect` only in that order. */
  function OnConnectAsWritten(cfg: Config, rc: int): (acts: seq<Action>)
    ensures rc != 0 ==> acts == OnConnect(cfg, rc)
    ensures rc == 0 ==> |acts| == |OnConnect(cfg, rc)|
                        && acts[0] == OnConnect(cfg, rc)[1] && acts[1] == OnConnect(cfg, rc)[0]
                        && acts[2..] == OnConnect(cfg, rc)[2..]
  {
    if rc != 0 then [] else [Subscribe(CommandTopic(cfg)), Purge(cfg)] + DiscoveryActions(cfg, true)
  }

  /** `_on_mqtt_disconnect` only logs, whatever the return code. */
  function OnDisconnect(rc: int): (acts: seq<Action>)
    ensures !TouchesBroker(acts) && |Frames(acts)| == 0
  {
    []
  }

  datatype Connection = Connection(session: Session, actions: seq<Action>, ok: bool)

  /** `connect_mqtt`. The client object exists from the first step on, even
      when connecting fails. The improved service leaves subscribing to the
      connect callback; the add-on purges the command topic and subscribes
      to it right after starting the network loop, the purge moved before
      the subscribe (see `ConnectMqttAsWritten`). */
  function ConnectMqtt(v: Variant, cfg: Config, s: Session, connectOk: bool): (c: Connection)
    ensures c.session == s.(hasClient := true) && c.ok == connectOk
    ensures |Frames(c.actions)| == 0
    ensures v.Improved? || !connectOk ==> !TouchesBroker(c.actions)
    ensures v.AddOn? && connectOk ==>
              && PublishedTo(c.actions, CommandTopic(cfg)) == [Purge(cfg)]
              && |c.actions| >= 2
              && c.actions[|c.actions| - 2..] == [Purge(cfg), Subscribe(CommandTopic(cfg))]
  {
    var acts :=
      if !connectOk then [MqttConnect]
      else if v.Improved? then [MqttConnect, LoopStart]
      else [MqttConnect, LoopStart, Purge(cfg), Subscribe(CommandTopic(cfg))];
    FramesEmpty(acts);
    ConnectMqttPublishes(v, cfg, connectOk, acts);
    Connection(s.(hasClient := true), acts, connectOk)
  }

  /** `connect_mqtt` as the add-on orders it: subscribe first, purge second.
      It differs from `ConnectMqtt` only in the order of its last two actions. */
  function ConnectMqttAsWritten(v: Variant, cfg: Config, s: Session, connectOk: bool): (c: Connection)
    ensures c.session == ConnectMqtt(v, cfg, s, connectOk).session && c.ok == ConnectMqtt(v, cfg, s, connectOk).ok
    ensures v.Improved? || !connectOk ==> c == ConnectMqtt(v, cfg, s, connectOk)
    ensures v.AddOn? && connectOk ==>
              var n := |c.actions|;
              n == |ConnectMqtt(v, cfg, s, connectOk).actions| && n >= 2
              && c.actions[..n - 2] == ConnectMqtt(v, cfg, s, connectOk).actions[..n - 2]
              && c.actions[n - 2] == ConnectMqtt(v, cfg, s, connectOk).actions[n - 1]
              && c.actions[n - 1] == ConnectMqtt(v, cfg, s, connectOk).actions[n - 2]
  {
    if v.AddOn? && connectOk
    then Connection(s.(hasClient := true), [MqttConnect, LoopStart, Subscribe(CommandTopic(cfg)), Purge(cfg)], true)
    else ConnectMqtt(v, cfg, s, connectOk)
  }

  /** The connect-time trace publishes to the command topic only the add-on's purge. */
  lemma ConnectMqttPublishes(v: Variant, cfg: Config, connectOk: bool, acts: seq<Action>)
    requires acts == if !connectOk then [MqttConnect]
                     else if v.Improved? then [MqttConnect, LoopStart]
                     else [MqttConnect, LoopStart, Purge(cfg), Subscribe(CommandTopic(cfg))]
    ensures v.AddOn? && connectOk ==> PublishedTo(acts, CommandTopic(cfg)) == [Purge(cfg)]
  {
    if v.AddOn? && connectOk {
      PublishedToSingle(acts, 2, CommandTopic(cfg));
    }
  }

  // ---------------------------------------------------------------------------
  // Polling
  // ---------------------------------------------------------------------------

  /** A poll succeeds when the port is ready and returns a full 'Q' reply. */
  predicate Polled(s: Session, io: SerialResult)
  {
    Ready(s) && FullReply(io)
  }

  predicate FullReply(io: SerialResult)
  {
    io.Received? && |io.data| >= MinReplyLength
  }

  function StatusUpdate(cfg: Config, st: QStatus): Action
  {
    Publish(StatusTopic(cfg), StatusDoc(st), 1, false)
  }

  /** The status update a reply leads to: one when it decodes, none otherwise. */
  function Report(cfg: Config, response: Option<seq<byte>>): seq<Action>
  {
    if response.Some? && DecodeQ(response.value).Some?
    then [StatusUpdate(cfg, DecodeQ(response.value).value)] else []
  }

  /** One iteration of `mqtt_monitor_loop`: query 'Q', publish the decoded
      status (QoS 1, not retained) when there is one, then wait the interval. */
  function PollCycle(cfg: Config, s: Session, io: SerialResult, intervalMs: nat): seq<Action>
  {
    var ex := SendSimple(s, "Q", io).ex;
    ex.actions + Report(cfg, ex.response) + [Delay(intervalMs)]
  }

  /** The 'Q' query of a cycle: it is always accepted, writes the 'Q' frame
      when the port is ready, never publishes, and yields the port's bytes
      exactly when the port is ready and answers something. */
  lemma QueryExchange(s: Session, io: SerialResult, topic: string)
    ensures SendSimple(s, "Q", io).Done?
    ensures Frames(SendSimple(s, "Q", io).ex.actions) == (if Ready(s) then [BuildFrame(Query(0x51))] else [])
    ensures PublishedTo(SendSimple(s, "Q", io).ex.actions, topic) == []
    ensures SendSimple(s, "Q", io).ex.response
         == (if Ready(s) && io.Received? && |io.data| > 0 then Some(io.data) else None)
  {
    PublishedToEmpty(SendSimple(s, "Q", io).ex.actions, topic);
  }

  /** The reply of a cycle decodes exactly when it is a full 'Q' reply. */
  lemma PollCycleReport(cfg: Config, s: Session, io: SerialResult)
    ensures Report(cfg, SendSimple(s, "Q", io).ex.response)
         == (if Polled(s, io) then [StatusUpdate(cfg, DecodeQ(io.data).value)] else [])
  {
    QueryExchange(s, io, StatusTopic(cfg));
  }

  /** A trace that does not publish to `topic`, then publishes only to
      `topic`, then waits, publishes to `topic` exactly the middle part. */
  lemma PublishedToMiddle(a: seq<Action>, report: seq<Action>, wait: Action, topic: string)
    requires PublishedTo(a, topic) == []
    requires |report| <= 1 && forall i :: 0 <= i < |report| ==> report[i].Publish? && report[i].topic == topic
    requires !wait.Publish?
    ensures PublishedTo(a + report + [wait], topic) == report
  {
    if |report| > 0 {
      assert report == [report[0]];
      PublishedToOne(report[0], topic);
    }
    PublishedToOne(wait, topic);
    PublishedToAppend(a, report, topic);
    PublishedToAppend(a + report, [wait], topic);
  }

  /** A report is at most one status update, addressed to the status topic. */
  lemma ReportShape(cfg: Config, response: Option<seq<byte>>)
    ensures |Report(cfg, response)| <= 1
    ensures forall i :: 0 <= i < |Report(cfg, response)| ==>
              Report(cfg, response)[i].Publish? && Report(cfg, response)[i].topic == StatusTopic(cfg)
  {
  }

  /** What a cycle publishes to the status topic is its report. */
  lemma PollCyclePublishesReport(cfg: Config, s: Session, io: SerialResult, intervalMs: nat)
    ensures PublishedTo(PollCycle(cfg, s, io, intervalMs), StatusTopic(cfg))
         == Report(cfg, SendSimple(s, "Q", io).ex.response)
  {
    var ex := SendSimple(s, "Q", io).ex;
    QueryExchange(s, io, StatusTopic(cfg));
    ReportShape(cfg, ex.response);
    PublishedToMiddle(ex.actions, Report(cfg, ex.response), Delay(intervalMs), StatusTopic(cfg));
  }

  /** A cycle publishes nothing outside the status topic. */
  lemma PollCycleQuietElsewhere(cfg: Config, s: Session, io: SerialResult, intervalMs: nat, t: string)
    requires t != StatusTopic(cfg)
    ensures PublishedTo(PollCycle(cfg, s, io, intervalMs), t) == []
  {
    var ex := SendSimple(s, "Q", io).ex;
    var report := Report(cfg, ex.response);
    QueryExchange(s, io, t);
    ReportShape(cfg, ex.response);
    PublishedToEmpty(report, t);
    PublishedToOne(Delay(intervalMs), t);
    PublishedToAppend(ex.actions, report, t);
    PublishedToAppend(ex.actions + report, [Delay(intervalMs)], t);
  }

  /** A cycle publishes one status update exactly when the reply is a full
      'Q' reply, and nothing on any other topic. */
  lemma PollCyclePublishes(cfg: Config, s: Session, io: SerialResult, intervalMs: nat)
    ensures PublishedTo(PollCycle(cfg, s, io, intervalMs), StatusTopic(cfg))
         == (if Polled(s, io) then [StatusUpdate(cfg, DecodeQ(io.data).value)] else [])
    ensures forall t :: t != StatusTopic(cfg) ==> PublishedTo(PollCycle(cfg, s, io, intervalMs), t) == []
  {
    PollCyclePublishesReport(cfg, s, io, intervalMs);
    PollCycleReport(cfg, s, io);
    forall t | t != StatusTopic(cfg)
      ensures PublishedTo(PollCycle(cfg, s, io, intervalMs), t) == []
    {
      PollCycleQuietElsewhere(cfg, s, io, intervalMs, t);
    }
  }

  /** Appending actions that write nothing, ending with `wait`, adds no frame. */
  lemma FramesMiddle(a: seq<Action>, report: seq<Action>, wait: Action)
    requires forall i :: 0 <= i < |report| ==> !report[i].Write?
    requires !wait.Write?
    ensures Frames(a + report + [wait]) == Frames(a)
  {
    FramesEmpty(report);
    FramesOne(wait);
    FramesAppend(a, report);
    FramesAppend(a + report, [wait]);
  }

  /** A cycle writes the 'Q' frame exactly when the port is ready, and always
      ends waiting for the next cycle, whatever the reply. */
  lemma PollCycleWrites(cfg: Config, s: Session, io: SerialResult, intervalMs: nat)
    ensures Frames(PollCycle(cfg, s, io, intervalMs)) == (if Ready(s) then [BuildFrame(Query(0x51))] else [])
    ensures |PollCycle(cfg, s, io, intervalMs)| > 0
    ensures PollCycle(cfg, s, io, intervalMs)[|PollCycle(cfg, s, io, intervalMs)| - 1] == Delay(intervalMs)
  {
    var ex := SendSimple(s, "Q", io).ex;
    ReportShape(cfg, ex.response);
    FramesMiddle(ex.actions, Report(cfg, ex.response), Delay(intervalMs));
    QueryExchange(s, io, StatusTopic(cfg));
  }

  datatype Startup = Startup(session: Session, actions: seq<Action>, started: bool)

  /** What `mqtt_monitor_loop` does before polling: give up without a
      connected port; create and connect a client if there is none; then wait
      two seconds (improved service) or announce the entities (add-on). */
  function Start(v: Variant, cfg: Config, s: Session, connectOk: bool): (st: Startup)
    ensures st.started <==> s.connected && (s.hasClient || connectOk)
    ensures st.started ==> Ready(st.session) == Ready(s) && st.session.hasClient
  {
    if !s.connected then Startup(s, [], false)
    else
      var c := if s.hasClient then Connection(s, [], true) else ConnectMqtt(v, cfg, s, connectOk);
      if !c.ok then Startup(c.session, c.actions, false)
      else Startup(c.session, c.actions + StartTail(v, cfg), true)
  }

  /** After connecting: the improved service waits two seconds, the add-on
      announces its entities. */
  function StartTail(v: Variant, cfg: Config): seq<Action>
  {
    if v.Improved? then [Delay(StartupDelayMs)] else DiscoveryActions(cfg, true)
  }

  /** Connecting publishes to no topic but the command topic. */
  lemma ConnectQuiet(v: Variant, cfg: Config, s: Session, connectOk: bool, topic: string)
    requires topic != CommandTopic(cfg)
    ensures PublishedTo(ConnectMqtt(v, cfg, s, connectOk).actions, topic) == []
  {
    var acts := ConnectMqtt(v, cfg, s, connectOk).actions;
    assert forall i :: 0 <= i < |acts| && acts[i].Publish? ==> acts[i] == Purge(cfg);
    PublishedToEmpty(acts, topic);
  }

  /** Start-up writes nothing and publishes no status update. */
  lemma StartQuiet(v: Variant, cfg: Config, s: Session, connectOk: bool)
    ensures Frames(Start(v, cfg, s, connectOk).actions) == []
    ensures PublishedTo(Start(v, cfg, s, connectOk).actions, StatusTopic(cfg)) == []
  {
    if s.connected {
      var c := if s.hasClient then Connection(s, [], true) else ConnectMqtt(v, cfg, s, connectOk);
      BridgeTopicsDistinct(cfg);
      if !s.hasClient {
        ConnectQuiet(v, cfg, s, connectOk, StatusTopic(cfg));
      }
      if c.ok {
        var tail := StartTail(v, cfg);
        DiscoveryQuiet(cfg, true);
        FramesOne(Delay(StartupDelayMs));
        PublishedToOne(Delay(StartupDelayMs), StatusTopic(cfg));
        FramesAppend(c.actions, tail);
        PublishedToAppend(c.actions, tail, StatusTopic(cfg));
      }
    }
  }

  /** How many of the port's answers are full 'Q' replies. */
  function CountReplies(ios: seq<SerialResult>): nat
  {
    if |ios| == 0 then 0
    else CountReplies(ios[..|ios| - 1]) + (if FullReply(ios[|ios| - 1]) then 1 else 0)
  }

  /** Appending a cycle adds its write and its status update to the counts
      and leaves what came before in place. */
  lemma CycleStep(cfg: Config, s: Session, io: SerialResult, intervalMs: nat, acts: seq<Action>)
    ensures var next := acts + PollCycle(cfg, s, io, intervalMs);
      && |PublishedTo(next, StatusTopic(cfg))| == |PublishedTo(acts, StatusTopic(cfg))| + (if Polled(s, io) then 1 else 0)
      && |Frames(next)| == |Frames(acts)| + (if Ready(s) then 1 else 0)
      && |next| >= |acts| && next[..|acts|] == acts
  {
    var cycle := PollCycle(cfg, s, io, intervalMs);
    PollCyclePublishes(cfg, s, io, intervalMs);
    PollCycleWrites(cfg, s, io, intervalMs);
    FramesAppend(acts, cycle);
    PublishedToAppend(acts, cycle, StatusTopic(cfg));
    assert (acts + cycle)[..|acts|] == acts;
  }

  /** One cycle, run: it writes one frame when the port is ready and
      publishes one status update when the reply is a full 'Q' reply. */
  method RunCycle(cfg: Config, s: Session, io: SerialResult, intervalMs: nat) returns (cycle: seq<Action>)
    ensures |PublishedTo(cycle, StatusTopic(cfg))| == (if Polled(s, io) then 1 else 0)
    ensures |Frames(cycle)| == (if Ready(s) then 1 else 0)
  {
    cycle := PollCycle(cfg, s, io, intervalMs);
    PollCyclePublishes(cfg, s, io, intervalMs);
    PollCycleWrites(cfg, s, io, intervalMs);
  }

  /** The polling part of `mqtt_monitor_loop`, one cycle per answer in `ios`,
      appended to `prefix`: one 'Q' frame per cycle when the port is ready,
      and one status update per full reply. */
  method Poll(cfg: Config, s: Session, ios: seq<SerialResult>, intervalMs: nat, prefix: seq<Action>)
    returns (acts: seq<Action>, published: nat)
    ensures published == (if Ready(s) then CountReplies(ios) else 0)
    ensures |PublishedTo(acts, StatusTopic(cfg))| == |PublishedTo(prefix, StatusTopic(cfg))| + published
    ensures |Frames(acts)| == |Frames(prefix)| + (if Ready(s) then |ios| else 0)
    ensures |acts| >= |prefix| && acts[..|prefix|] == prefix
  {
    acts := prefix;
    published := 0;
    var i := 0;
    while i < |ios|
      invariant 0 <= i <= |ios|
      invariant published == (if Ready(s) then CountReplies(ios[..i]) else 0)
      invariant |PublishedTo(acts, StatusTopic(cfg))| == |PublishedTo(prefix, StatusTopic(cfg))| + published
      invariant |Frames(acts)| == |Frames(prefix)| + (if Ready(s) then i else 0)
      invariant |acts| >= |prefix| && acts[..|prefix|] == prefix
    {
      var cycle := RunCycle(cfg, s, ios[i], intervalMs);
      FramesAppend(acts, cycle);
      PublishedToAppend(acts, cycle, StatusTopic(cfg));
      assert (acts + cycle)[..|prefix|] == acts[..|prefix|];
      assert ios[..i + 1][..i] == ios[..i];
      acts := acts + cycle;
      published := published + (if Polled(s, ios[i]) then 1 else 0);
      i := i + 1;
    }
    assert ios[..i] == ios;
  }

  /** `mqtt_monitor_loop`, run for as many cycles as `ios` has answers: the
      start-up actions, then the cycles. Nothing is polled when start-up
      gives up. */
  method MonitorLoop(v: Variant, cfg: Config, s: Session, connectOk: bool,
                     ios: seq<SerialResult>, intervalMs: nat)
    returns (acts: seq<Action>, published: nat)
    ensures var st := Start(v, cfg, s, connectOk);
      && (!st.started ==> published == 0 && acts == st.actions)
      && (st.started ==> published == (if Ready(s) then CountReplies(ios) else 0))
      && |PublishedTo(acts, StatusTopic(cfg))| == published
      && (st.started ==> |Frames(acts)| == (if Ready(s) then |ios| else 0))
      && (st.started ==> |acts| >= |st.actions| && acts[..|st.actions|] == st.actions)
  {
    var st := Start(v, cfg, s, connectOk);
    StartQuiet(v, cfg, s, connectOk);
    if !st.started {
      acts, published := st.actions, 0;
      return;
    }
    acts, published := Poll(cfg, st.session, ios, intervalMs, st.actions);
  }

  // ---------------------------------------------------------------------------
  // Shutdown
  // ---------------------------------------------------------------------------

  datatype Disconnection = Disconnection(session: Session, actions: seq<Action>)

  /** `disconnect`: close the port only if it is open (and mark the service
      disconnected), then disconnect the client if there is one; the improved
      service also stops the network loop afterwards. */
  function Disconnect(v: Variant, s: Session): (d: Disconnection)
    ensures d.session.port.Some? <==> s.port.Some?
    ensures d.session.port.Some? ==> !d.session.port.value.open
    ensures Valid(s) ==> Valid(d.session) && !d.session.connected
    ensures d.session.hasClient == s.hasClient
  {
    var closes := s.port.Some? && s.port.value.open;
    var serial := if closes then [CloseSerial] else [];
    var mqtt := if !s.hasClient then [] else if v.Improved? then [MqttDisconnect, LoopStop] else [MqttDisconnect];
    Disconnection(if closes then s.(port := Some(Port(false)), connected := false) else s, serial + mqtt)
  }

  /** What `disconnect` does, by action: the port is closed only when it was
      open, the client is disconnected whenever it exists, and the network
      loop is stopped (improved service only) after the client is disconnected. */
  lemma DisconnectActions(v: Variant, s: Session)
    ensures var acts := Disconnect(v, s).actions;
      && (CloseSerial in acts <==> s.port.Some? && s.port.value.open)
      && (MqttDisconnect in acts <==> s.hasClient)
      && (LoopStop in acts <==> s.hasClient && v.Improved?)
      && (LoopStop in acts ==> |acts| >= 2 && acts[|acts| - 2] == MqttDisconnect && acts[|acts| - 1] == LoopStop)
  {
    var acts := Disconnect(v, s).actions;
    if s.port.Some? && s.port.value.open {
      if !s.hasClient {
        assert acts == [CloseSerial];
      } else if v.Improved? {
        assert acts == [CloseSerial, MqttDisconnect, LoopStop];
      } else {
        assert acts == [CloseSerial, MqttDisconnect];
      }
    } else {
      if !s.hasClient {
        assert acts == [];
      } else if v.Improved? {
        assert acts == [MqttDisconnect, LoopStop];
      } else {
        assert acts == [MqttDisconnect];
      }
    }
  }

  /** `disconnect` neither writes to the port nor talks to the broker beyond
      disconnecting. */
  lemma DisconnectQuiet(v: Variant, s: Session)
    ensures !TouchesBroker(Disconnect(v, s).actions)
    ensures |Frames(Disconnect(v, s).actions)| == 0
  {
    var acts := Disconnect(v, s).actions;
    assert forall i :: 0 <= i < |acts| ==> acts[i] in {CloseSerial, MqttDisconnect, LoopStop};
    FramesEmpty(acts);
  }

  /** Calling `disconnect` a second time changes nothing more and does not
      close the port again. */
  lemma DisconnectTwice(v: Variant, s: Session)
    ensures Disconnect(v, Disconnect(v, s).session).session == Disconnect(v, s).session
    ensures CloseSerial !in Disconnect(v, Disconnect(v, s).session).actions
  {
    DisconnectActions(v, Disconnect(v, s).session);
  }
}
