/**
  What the bridge does to the outside world, as a sequence of abstract
  actions: serial writes and reads, settle delays, and MQTT subscribe and
  publish requests. Payload contents are opaque apart from what identifies
  them.
 */
module Trace {
  import opened Base
  import opened Codec
  import opened Json

  /** An MQTT payload. `Empty` is the zero-byte payload (`payload=None`);
      discovery documents are identified by the entity's unique id, status
      documents by the decoded reading they serialise. `Posted` is a JSON
      message another client published, such as a Home Assistant command. */
  datatype Payload =
    | Empty
    | ConfigDoc(uniqueId: string)
    | StatusDoc(status: QStatus)
    | Posted(body: JsonValue)

  datatype Action =
    | Subscribe(topic: string)
    | Publish(topic: string, payload: Payload, qos: nat, retain: bool)
    | Write(frame: seq<byte>)
    | Delay(ms: nat)
    | Read(maxBytes: nat)
    | CloseSerial
    | MqttConnect
    | LoopStart
    | MqttDisconnect
    | LoopStop

  /** The frames written to the serial port, in order. */
  function Frames(acts: seq<Action>): (fs: seq<seq<byte>>)
    ensures |fs| <= |acts|
  {
    if |acts| == 0 then []
    else (if acts[0].Write? then [acts[0].frame] else []) + Frames(acts[1..])
  }

  /** The publish requests addressed to `topic`, in order. */
  function PublishedTo(acts: seq<Action>, topic: string): (ps: seq<Action>)
    ensures |ps| <= |acts|
  {
    if |acts| == 0 then []
    else (if acts[0].Publish? && acts[0].topic == topic then [acts[0]] else [])
         + PublishedTo(acts[1..], topic)
  }

  /** Whether the trace contains an MQTT subscribe or publish request. */
  predicate TouchesBroker(acts: seq<Action>)
  {
    exists i :: 0 <= i < |acts| && (acts[i].Subscribe? || acts[i].Publish?)
  }
}

/** Facts about traces that follow from how they are concatenated. */
module TraceFacts {
  import opened Base
  import opened Trace

  lemma {:induction false} FramesAppend(a: seq<Action>, b: seq<Action>)
    ensures Frames(a + b) == Frames(a) + Frames(b)
  {
    if |a| > 0 {
      assert (a + b)[1..] == a[1..] + b;
      FramesAppend(a[1..], b);
    } else {
      assert a + b == b;
    }
  }

  lemma {:induction false} PublishedToAppend(a: seq<Action>, b: seq<Action>, topic: string)
    ensures PublishedTo(a + b, topic) == PublishedTo(a, topic) + PublishedTo(b, topic)
  {
    if |a| > 0 {
      assert (a + b)[1..] == a[1..] + b;
      PublishedToAppend(a[1..], b, topic);
    } else {
      assert a + b == b;
    }
  }

  lemma FramesOne(a: Action)
    ensures Frames([a]) == if a.Write? then [a.frame] else []
  {
    assert [a][1..] == [];
  }

  lemma PublishedToOne(a: Action, topic: string)
    ensures PublishedTo([a], topic) == if a.Publish? && a.topic == topic then [a] else []
  {
    assert [a][1..] == [];
  }

  /** A trace writes nothing exactly when none of its actions is a write. */
  lemma {:induction false} FramesEmpty(acts: seq<Action>)
    ensures |Frames(acts)| == 0 <==> forall i :: 0 <= i < |acts| ==> !acts[i].Write?
  {
    if |acts| > 0 {
      FramesEmpty(acts[1..]);
      assert forall i :: 1 <= i < |acts| ==> acts[i] == acts[1..][i - 1];
    }
  }

  /** When exactly one action of the trace publishes to `topic`, that action
      is all that is published there. */
  lemma {:induction false} PublishedToSingle(acts: seq<Action>, i: nat, topic: string)
    requires i < |acts| && acts[i].Publish? && acts[i].topic == topic
    requires forall j :: 0 <= j < |acts| && j != i ==> !(acts[j].Publish? && acts[j].topic == topic)
    ensures PublishedTo(acts, topic) == [acts[i]]
    decreases |acts|
  {
    assert forall j :: 0 <= j < |acts| - 1 ==> acts[1..][j] == acts[j + 1];
    if i == 0 {
      PublishedToEmpty(acts[1..], topic);
    } else {
      PublishedToSingle(acts[1..], i - 1, topic);
    }
  }

  /** A trace publishes nothing to `topic` exactly when none of its actions does. */
  lemma {:induction false} PublishedToEmpty(acts: seq<Action>, topic: string)
    ensures |PublishedTo(acts, topic)| == 0
            <==> forall i :: 0 <= i < |acts| ==> !(acts[i].Publish? && acts[i].topic == topic)
  {
    if |acts| > 0 {
      PublishedToEmpty(acts[1..], topic);
      assert forall i :: 1 <= i < |acts| ==> acts[i] == acts[1..][i - 1];
    }
  }
}

/**
  The broker's view of the bridge: which topics the client subscribed to and
  which message the broker retains per topic. Section 3.3.1.3 of the MQTT
  3.1.1 standard: a PUBLISH with RETAIN set replaces the retained message of
  its topic, and one with a zero-byte payload removes it; a PUBLISH without
  RETAIN leaves the retained message alone.

  What the broker sends back to the client follows the same section and
  section 3.8.4: a SUBSCRIBE makes the broker send the retained message of
  the topic, if there is one, even when the subscription already existed;
  a PUBLISH, zero-byte ones included, is forwarded to the client when it is
  subscribed to the topic.
 */
module Broker {
  import opened Base
  import opened Trace

  datatype Broker = Broker(subscriptions: set<string>, retained: map<string, Payload>)

  /** A message the broker sends the client. */
  datatype Delivery = Delivery(topic: string, payload: Payload)

  function Step(b: Broker, a: Action): (b': Broker)
    ensures a.Subscribe? ==> b'.subscriptions == b.subscriptions + {a.topic}
    ensures !a.Subscribe? ==> b'.subscriptions == b.subscriptions
    ensures forall t :: t in b.retained && !(a.Publish? && a.retain && a.topic == t)
                        ==> t in b'.retained && b'.retained[t] == b.retained[t]
  {
    match a
    case Subscribe(t) => b.(subscriptions := b.subscriptions + {t})
    case Publish(t, p, _, retain) =>
      if !retain then b
      else if p == Empty then b.(retained := b.retained - {t})
      else b.(retained := b.retained[t := p])
    case _ => b
  }

  /** The broker after the actions, in order. */
  function Apply(b: Broker, acts: seq<Action>): Broker
    decreases |acts|
  {
    if |acts| == 0 then b else Step(Apply(b, acts[..|acts| - 1]), acts[|acts| - 1])
  }

  /** What the broker sends the client in answer to one action. */
  function Deliver(b: Broker, a: Action): seq<Delivery>
  {
    match a
    case Subscribe(t) => if t in b.retained then [Delivery(t, b.retained[t])] else []
    case Publish(t, p, _, _) => if t in b.subscriptions then [Delivery(t, p)] else []
    case _ => []
  }

  /** What the broker sends the client while it processes the actions in order. */
  function Delivered(b: Broker, acts: seq<Action>): seq<Delivery>
    decreases |acts|
  {
    if |acts| == 0 then [] else Deliver(b, acts[0]) + Delivered(Step(b, acts[0]), acts[1..])
  }

  /** The payload of the last retained publish to `t`, if there is one. */
  function LastRetained(acts: seq<Action>, t: string): Option<Payload>
    decreases |acts|
  {
    if |acts| == 0 then None
    else
      var a := acts[|acts| - 1];
      if a.Publish? && a.retain && a.topic == t then Some(a.payload)
      else LastRetained(acts[..|acts| - 1], t)
  }

  /** Topics the actions subscribe to. */
  function SubscribedTopics(acts: seq<Action>): set<string>
  {
    set i | 0 <= i < |acts| && acts[i].Subscribe? :: acts[i].topic
  }

  /** The retained message of `t`, if any. */
  function Lookup(m: map<string, Payload>, t: string): Option<Payload>
  {
    if t in m then Some(m[t]) else None
  }

  /** What a topic retains after a retained publish of `last` (if any) over
      what it retained before. */
  function Resolve(last: Option<Payload>, before: Option<Payload>): Option<Payload>
  {
    match last
    case None => before
    case Some(Empty) => None
    case Some(p) => Some(p)
  }
}

/** The broker is determined topic by topic by the last retained publish. */
module BrokerFacts {
  import opened Base
  import opened Trace
  import opened Broker

  lemma {:induction false} ApplyRetained(b: Broker, acts: seq<Action>, t: string)
    ensures Lookup(Apply(b, acts).retained, t) == Resolve(LastRetained(acts, t), Lookup(b.retained, t))
    decreases |acts|
  {
    if |acts| > 0 {
      ApplyRetained(b, acts[..|acts| - 1], t);
    }
  }

  lemma {:induction false} ApplySubscriptions(b: Broker, acts: seq<Action>)
    ensures Apply(b, acts).subscriptions == b.subscriptions + SubscribedTopics(acts)
    decreases |acts|
  {
    if |acts| > 0 {
      var init := acts[..|acts| - 1];
      ApplySubscriptions(b, init);
      assert forall i :: 0 <= i < |init| ==> init[i] == acts[i];
      assert SubscribedTopics(acts)
          == SubscribedTopics(init) + (if acts[|acts| - 1].Subscribe? then {acts[|acts| - 1].topic} else {});
    } else {
      assert SubscribedTopics(acts) == {};
    }
  }

  /** Two brokers are equal when they agree on subscriptions and on every topic's retained message. */
  lemma BrokerExt(x: Broker, y: Broker)
    requires x.subscriptions == y.subscriptions
    requires forall t :: Lookup(x.retained, t) == Lookup(y.retained, t)
    ensures x == y
  {
    assert forall t :: t in x.retained <==> t in y.retained by {
      forall t ensures t in x.retained <==> t in y.retained {
        assert Lookup(x.retained, t) == Lookup(y.retained, t);
      }
    }
    assert forall t :: t in x.retained ==> x.retained[t] == y.retained[t] by {
      forall t | t in x.retained ensures x.retained[t] == y.retained[t] {
        assert Lookup(x.retained, t) == Lookup(y.retained, t);
      }
    }
  }

  /** Replaying a trace against the broker it produced changes nothing: the
      broker state a trace leaves behind does not depend on how many times it
      was delivered. */
  lemma ApplyIdempotent(b: Broker, acts: seq<Action>)
    ensures Apply(Apply(b, acts), acts) == Apply(b, acts)
  {
    var once := Apply(b, acts);
    var twice := Apply(once, acts);
    ApplySubscriptions(b, acts);
    ApplySubscriptions(once, acts);
    forall t ensures Lookup(twice.retained, t) == Lookup(once.retained, t) {
      ApplyRetained(b, acts, t);
      ApplyRetained(once, acts, t);
    }
    BrokerExt(twice, once);
  }

  lemma DeliveredCons(b: Broker, a: Action, rest: seq<Action>)
    ensures Delivered(b, [a] + rest) == Deliver(b, a) + Delivered(Step(b, a), rest)
  {
    assert ([a] + rest)[1..] == rest;
  }

  /** A trace that subscribes to nothing and publishes no `Posted` message
      gets back no `Posted` message, whatever the broker retains: only a
      subscribe brings back what others published. */
  lemma {:induction false} DeliveredNothingPosted(b: Broker, acts: seq<Action>)
    requires forall i :: 0 <= i < |acts| ==> !acts[i].Subscribe? && !(acts[i].Publish? && acts[i].payload.Posted?)
    ensures forall j :: 0 <= j < |Delivered(b, acts)| ==> !Delivered(b, acts)[j].payload.Posted?
    decreases |acts|
  {
    if |acts| > 0 {
      assert forall i :: 0 <= i < |acts| - 1 ==> acts[1..][i] == acts[i + 1];
      DeliveredNothingPosted(Step(b, acts[0]), acts[1..]);
    }
  }

  lemma ApplyTwo(b: Broker, a: Action, c: Action)
    ensures Apply(b, [a, c]) == Step(Step(b, a), c)
  {
    assert [a, c][..1] == [a];
    assert [a][..0] == [];
    assert Apply(b, [a]) == Step(Apply(b, []), a);
    assert Apply(b, [a, c]) == Step(Apply(b, [a]), c);
  }

  /** Applying a concatenation applies its parts one after the other. */
  lemma {:induction false} ApplyAppend(b: Broker, x: seq<Action>, y: seq<Action>)
    ensures Apply(b, x + y) == Apply(Apply(b, x), y)
    decreases |y|
  {
    if |y| == 0 {
      assert x + y == x;
    } else {
      var init := y[..|y| - 1];
      assert (x + y)[..|x + y| - 1] == x + init;
      assert (x + y)[|x + y| - 1] == y[|y| - 1];
      ApplyAppend(b, x, init);
    }
  }

  /** Actions that neither subscribe nor publish leave the broker unchanged. */
  lemma {:induction false} ApplyQuiet(b: Broker, acts: seq<Action>)
    requires forall i :: 0 <= i < |acts| ==> !acts[i].Subscribe? && !acts[i].Publish?
    ensures Apply(b, acts) == b
    decreases |acts|
  {
    if |acts| > 0 {
      ApplyQuiet(b, acts[..|acts| - 1]);
    }
  }

  lemma {:induction false} LastRetainedAppend(a: seq<Action>, c: seq<Action>, t: string)
    ensures LastRetained(a + c, t)
         == (if LastRetained(c, t).Some? then LastRetained(c, t) else LastRetained(a, t))
    decreases |c|
  {
    if |c| == 0 {
      assert a + c == a;
    } else {
      assert (a + c)[..|a + c| - 1] == a + c[..|c| - 1];
      LastRetainedAppend(a, c[..|c| - 1], t);
    }
  }

  /** When exactly one action of the trace is a retained publish to `t`, its
      payload is what `t` ends up with. */
  lemma {:induction false} LastRetainedSingle(acts: seq<Action>, i: nat, t: string)
    requires i < |acts| && acts[i].Publish? && acts[i].retain && acts[i].topic == t
    requires forall j :: 0 <= j < |acts| && j != i ==> !(acts[j].Publish? && acts[j].retain && acts[j].topic == t)
    ensures LastRetained(acts, t) == Some(acts[i].payload)
    decreases |acts|
  {
    if i < |acts| - 1 {
      var init := acts[..|acts| - 1];
      assert forall j :: 0 <= j < |init| ==> init[j] == acts[j];
      LastRetainedSingle(init, i, t);
    }
  }

  /** A trace without a retained publish to `t` leaves `t` as it was. */
  lemma {:induction false} LastRetainedNone(acts: seq<Action>, t: string)
    requires forall j :: 0 <= j < |acts| ==> !(acts[j].Publish? && acts[j].retain && acts[j].topic == t)
    ensures LastRetained(acts, t).None?
    decreases |acts|
  {
    if |acts| > 0 {
      var init := acts[..|acts| - 1];
      assert forall j :: 0 <= j < |init| ==> init[j] == acts[j];
      LastRetainedNone(init, t);
    }
  }
}
