/**
 * The message handler of the gateway and its discovery registry. `Handle`
 * states what one inbound message does to the registry and which messages it
 * publishes; the class `App` performs it step by step on its own state.
 */
module Gateway {
  import opened Wrappers
  import opened JsNumber
  import opened JsText
  import opened JsObject
  import opened HexCodec
  import opened Mac
  import opened Settings
  import opened Atc
  import opened Messages
  import opened Discovery

  /** Whether the handler returned normally or threw. */
  datatype Outcome = Done | Threw

  /** The registry afterwards, the publishes in order, and the outcome. */
  datatype Effect = Effect(tags: map<string, bool>, published: seq<Message>, outcome: Outcome)

  /** The registry key of a message: the normalised last segment of its topic. */
  function KeyOf(topic: string): string {
    NormalizeMac(TopicMac(topic))
  }

  /** A topic `<prefix>/<mac>` is keyed by the normal form of its MAC. */
  lemma KeyOfTopic(prefix: string, mac: string)
    requires '/' !in mac
    ensures KeyOf(prefix + "/" + mac) == NormalizeMac(mac)
    ensures IsNormalized(KeyOf(prefix + "/" + mac))
  {
    TopicMacLastSegment(prefix, mac);
  }

  /** The state message of a reading, retained. */
  function StateMessage(config: Config, key: string, out: AtcState): (msg: Message)
    ensures msg.retain && msg.payload.StateBody?
  {
    Message(StateTopic(config.xiomiTopic, key), StateBody(out), true)
  }

  /** `handleMessage(topic, payload)` on the parsed measurement `m`, with the
      registry `tags` and the allow-list `allow`. `derive` stands for the
      floating-point derivations from temperature and humidity. */
  function Handle(config: Config, allow: seq<string>, derive: (Num, Num) -> Derived,
                  tags: map<string, bool>, topic: string, m: Measurement): (e: Effect)
    ensures e.outcome == Threw ==> e.tags == tags && e.published == []
    ensures |e.published| <= 8
  {
    if topic == config.hassTopic then Effect(map[], [], Done)
    else if m.data.None? then Effect(tags, [], Done)
    else
      var data := m.data.value;
      var mac := TopicMac(topic);
      if !IsFlashedAtc(data) then Effect(tags, [], Done)
      else
        match DecodeAtc(HexBytes(data))
        case None => Effect(tags, [], Threw)
        case Some(f) => Deliver(config, allow, tags, mac, m, f, derive(f.temperature, f.humidity))
  }

  /** The decoded branch: publish the reading, then announce the device if the
      registry does not know it yet, and register it. */
  function Deliver(config: Config, allow: seq<string>, tags: map<string, bool>,
                   mac: string, m: Measurement, f: AtcFields, d: Derived): (e: Effect)
    ensures e.outcome == Done && 1 <= |e.published| <= 8
  {
    var out := Reading(f, d, mac, m);
    var key := NormalizeMac(mac);
    var state := StateMessage(config, key, out);
    if !Lookup(tags, key) then
      Effect(Assign(tags, key), [state] + DiscoveryMessages(config, allow, out), Done)
    else
      Effect(tags, [state], Done)
  }

  /** The reading first, retained on the device's state topic; then the
      discovery configs exactly when the device was unknown; afterwards the
      device is registered and no other key changes. */
  lemma DeliverShape(config: Config, allow: seq<string>, tags: map<string, bool>,
                     mac: string, m: Measurement, f: AtcFields, d: Derived)
    ensures var e := Deliver(config, allow, tags, mac, m, f, d);
      var out := Reading(f, d, mac, m);
      var key := NormalizeMac(mac);
      && e.published[0] == Message(StateTopic(config.xiomiTopic, key), StateBody(out), true)
      && e.published[1..] == (if Lookup(tags, key) then [] else DiscoveryMessages(config, allow, out))
      && Lookup(e.tags, key)
      && (forall k :: k != key ==> Lookup(e.tags, k) == Lookup(tags, k))
      && (Lookup(tags, key) ==> e.tags == tags)
  {
    var e := Deliver(config, allow, tags, mac, m, f, d);
    var out := Reading(f, d, mac, m);
    if !Lookup(tags, NormalizeMac(mac)) {
      var state := StateMessage(config, NormalizeMac(mac), out);
      assert ([state] + DiscoveryMessages(config, allow, out))[1..] == DiscoveryMessages(config, allow, out);
    }
  }

  /** On a decoded message the handler is the decoded branch on the fields
      read from the payload. */
  lemma HandleDelivers(config: Config, allow: seq<string>, derive: (Num, Num) -> Derived,
                       tags: map<string, bool>, topic: string, m: Measurement)
    requires Decodes(config, topic, m)
    ensures DecodeAtc(HexBytes(m.data.value)).Some?
    ensures var f := DecodeAtc(HexBytes(m.data.value)).value;
      Handle(config, allow, derive, tags, topic, m)
        == Deliver(config, allow, tags, TopicMac(topic), m, f, derive(f.temperature, f.humidity))
  {
    DecodesHasFields(m.data.value);
  }

  /** A message the handler decodes: not on the status topic, with `data`,
      classified as ATC, and long enough for 16 bytes. */
  predicate Decodes(config: Config, topic: string, m: Measurement) {
    topic != config.hassTopic && m.data.Some? && IsFlashedAtc(m.data.value) && |m.data.value| >= 31
  }

  lemma DecodesHasFields(data: string)
    ensures DecodeAtc(HexBytes(data)).Some? <==> |data| >= 31
  {
  }

  /** A message on the status topic empties the registry and publishes nothing. */
  lemma HandleReset(config: Config, allow: seq<string>, derive: (Num, Num) -> Derived,
                    tags: map<string, bool>, m: Measurement)
    ensures var e := Handle(config, allow, derive, tags, config.hassTopic, m);
      e.tags == map[] && e.published == [] && e.outcome == Done
      && forall key :: Lookup(e.tags, key) <==> key == "__proto__" || key in PrototypeProperties
  {
  }

  /** Something is published exactly when the message decodes; a message
      without `data` or without the marker publishes nothing. */
  lemma HandlePublishes(config: Config, allow: seq<string>, derive: (Num, Num) -> Derived,
                        tags: map<string, bool>, topic: string, m: Measurement)
    ensures var e := Handle(config, allow, derive, tags, topic, m);
      |e.published| > 0 <==> Decodes(config, topic, m)
  {
    if topic != config.hassTopic && m.data.Some? {
      DecodesHasFields(m.data.value);
    }
  }

  /** The handler throws exactly on a classified payload too short for 16
      bytes, and then changes and publishes nothing. */
  lemma HandleThrows(config: Config, allow: seq<string>, derive: (Num, Num) -> Derived,
                     tags: map<string, bool>, topic: string, m: Measurement)
    ensures var e := Handle(config, allow, derive, tags, topic, m);
      (e.outcome == Threw <==>
        topic != config.hassTopic && m.data.Some? && IsFlashedAtc(m.data.value) && |m.data.value| < 31)
      && (e.outcome == Threw ==> e.tags == tags && e.published == [])
  {
    if topic != config.hassTopic && m.data.Some? {
      DecodesHasFields(m.data.value);
    }
  }

  /** A decoded message publishes the reading first, retained on the
      device's state topic, followed by its discovery configs exactly when
      the device was not yet registered; the device is registered afterwards,
      and no other key changes. */
  lemma HandleDecoded(config: Config, allow: seq<string>, derive: (Num, Num) -> Derived,
                      tags: map<string, bool>, topic: string, m: Measurement)
    requires Decodes(config, topic, m)
    ensures var e := Handle(config, allow, derive, tags, topic, m);
      var f := DecodeAtc(HexBytes(m.data.value)).value;
      var out := Reading(f, derive(f.temperature, f.humidity), TopicMac(topic), m);
      var key := KeyOf(topic);
      && e.outcome == Done
      && |e.published| >= 1
      && e.published[0] == Message(StateTopic(config.xiomiTopic, key), StateBody(out), true)
      && e.published[1..] == (if Lookup(tags, key) then [] else DiscoveryMessages(config, allow, out))
      && Lookup(e.tags, key)
      && (forall k :: k != key ==> Lookup(e.tags, k) == Lookup(tags, k))
      && (Lookup(tags, key) ==> e.tags == tags)
  {
    HandleDelivers(config, allow, derive, tags, topic, m);
    var f := DecodeAtc(HexBytes(m.data.value)).value;
    DeliverShape(config, allow, tags, TopicMac(topic), m, f, derive(f.temperature, f.humidity));
  }

  /** Exactly one state message per decoded message: every later publish is
      a retained discovery config. */
  lemma HandleOneState(config: Config, allow: seq<string>, derive: (Num, Num) -> Derived,
                       tags: map<string, bool>, topic: string, m: Measurement)
    ensures var e := Handle(config, allow, derive, tags, topic, m);
      (|e.published| > 0 ==> e.published[0].payload.StateBody?)
      && forall i :: 0 < i < |e.published| ==> e.published[i].payload.ConfigBody? && e.published[i].retain
  {
    if topic != config.hassTopic && m.data.Some? && IsFlashedAtc(m.data.value)
      && DecodeAtc(HexBytes(m.data.value)).Some?
    {
      var f := DecodeAtc(HexBytes(m.data.value)).value;
      DeliverOneState(config, allow, tags, TopicMac(topic), m, f, derive(f.temperature, f.humidity));
    }
  }

  lemma DeliverOneState(config: Config, allow: seq<string>, tags: map<string, bool>,
                        mac: string, m: Measurement, f: AtcFields, d: Derived)
    ensures var e := Deliver(config, allow, tags, mac, m, f, d);
      e.published[0].payload.StateBody?
      && forall i :: 0 < i < |e.published| ==> e.published[i].payload.ConfigBody? && e.published[i].retain
  {
    var out := Reading(f, d, mac, m);
    var rest := DiscoveryMessages(config, allow, out);
    var state := StateMessage(config, NormalizeMac(mac), out);
    assert forall i :: 0 < i < |[state] + rest| ==> ([state] + rest)[i] == rest[i - 1];
  }

  /** A decoded message from a registered device publishes only its state
      and leaves the registry as it is. */
  lemma HandleKnown(config: Config, allow: seq<string>, derive: (Num, Num) -> Derived,
                    tags: map<string, bool>, topic: string, m: Measurement)
    requires Decodes(config, topic, m) && Lookup(tags, KeyOf(topic))
    ensures var e := Handle(config, allow, derive, tags, topic, m);
      |e.published| == 1 && e.tags == tags
  {
    HandleDecoded(config, allow, derive, tags, topic, m);
  }

  /** A second message from a device already seen publishes only its state. */
  lemma HandleSecondMessage(config: Config, allow: seq<string>, derive: (Num, Num) -> Derived,
                            tags: map<string, bool>, t1: string, m1: Measurement, t2: string, m2: Measurement)
    requires Decodes(config, t1, m1) && Decodes(config, t2, m2)
    requires KeyOf(t1) == KeyOf(t2)
    ensures var e1 := Handle(config, allow, derive, tags, t1, m1);
      var e2 := Handle(config, allow, derive, e1.tags, t2, m2);
      |e2.published| == 1 && e2.tags == e1.tags
  {
    var e1 := Handle(config, allow, derive, tags, t1, m1);
    HandleDecoded(config, allow, derive, tags, t1, m1);
    HandleKnown(config, allow, derive, e1.tags, t2, m2);
  }

  /** After a reset, the next decoded message of any device announces it
      again, unless its key names a property every object inherits. */
  lemma HandleRediscover(config: Config, allow: seq<string>, derive: (Num, Num) -> Derived,
                         tags: map<string, bool>, m0: Measurement, topic: string, m: Measurement)
    requires Decodes(config, topic, m)
    requires KeyOf(topic) != "__proto__" && KeyOf(topic) !in PrototypeProperties
    ensures var e0 := Handle(config, allow, derive, tags, config.hassTopic, m0);
      var e := Handle(config, allow, derive, e0.tags, topic, m);
      var f := DecodeAtc(HexBytes(m.data.value)).value;
      var out := Reading(f, derive(f.temperature, f.humidity), TopicMac(topic), m);
      e.published[1..] == DiscoveryMessages(config, allow, out)
  {
    HandleDecoded(config, allow, derive, map[], topic, m);
  }

  /** A device whose key is `__proto__` or `constructor` is never announced:
      the registry already answers truthy for it. */
  lemma HandleInheritedKey(config: Config, allow: seq<string>, derive: (Num, Num) -> Derived,
                           tags: map<string, bool>, topic: string, m: Measurement)
    requires KeyOf(topic) == "__proto__" || KeyOf(topic) == "constructor"
    requires AllTrue(tags)
    ensures |Handle(config, allow, derive, tags, topic, m).published| <= 1
  {
    assert Lookup(tags, KeyOf(topic));
    if Decodes(config, topic, m) {
      HandleKnown(config, allow, derive, tags, topic, m);
    } else {
      HandlePublishes(config, allow, derive, tags, topic, m);
    }
  }

  /** The gateway: configuration, registry and the log of publishes. */
  class App {
    const config: Config
    const derive: (Num, Num) -> Derived
    const includeAttributes: seq<string>
    var discoveredTags: map<string, bool>
    var log: seq<Message>

    /** Every registered key is in normal form and marked true. */
    predicate Valid()
      reads this
    {
      AllTrue(discoveredTags) && forall k :: k in discoveredTags ==> IsNormalized(k)
    }

    /** A key looks registered exactly when it was registered or is a name
        every object inherits. */
    lemma RegistryLookup(key: string)
      requires Valid()
      ensures Lookup(discoveredTags, key) <==> key in discoveredTags || key in PrototypeProperties
    {
      LookupAllTrue(discoveredTags, key);
    }

    constructor (config: Config, derive: (Num, Num) -> Derived)
      ensures Valid()
      ensures this.config == config && this.derive == derive
      ensures includeAttributes == IncludeAttributes(config.attributes)
      ensures discoveredTags == map[] && log == []
    {
      this.config := config;
      this.derive := derive;
      if config.attributes != "" {
        this.includeAttributes := Split(config.attributes, ',');
      } else {
        this.includeAttributes := [];
      }
      discoveredTags := map[];
      log := [];
    }

    method PublishSensorDiscovery(out: AtcState, spec: Spec)
      modifies this`log
      ensures log == old(log) + SensorDiscovery(config, includeAttributes, out, spec)
    {
      if !AttributeTruthy(out, spec.jsonAttribute) {
        return;
      }
      if |includeAttributes| > 0 && spec.jsonAttribute !in includeAttributes {
        return;
      }
      var descriptor := Describe(config, out, spec);
      var confTopic := ConfigTopic(config.homeassistantTopicPrefix, descriptor.objectId);
      log := log + [Message(confTopic, ConfigBody(descriptor), true)];
    }

    method PublishDiscovery(out: AtcState)
      modifies this`log
      ensures log == old(log) + DiscoveryMessages(config, includeAttributes, out)
    {
      if out.deviceType == AtcType {
        PublishSensorDiscovery(out, TemperatureSpec);
        PublishSensorDiscovery(out, HumiditySpec);
        PublishSensorDiscovery(out, VoltageSpec);
        PublishSensorDiscovery(out, BatterySpec);
        PublishSensorDiscovery(out, AbsoluteHumiditySpec);
        PublishSensorDiscovery(out, DewPointSpec);
        PublishSensorDiscovery(out, EquilibriumVaporPressureSpec);
        AtcConfigs(config, includeAttributes, out, old(log));
      }
    }

    method HandleMessage(topic: string, m: Measurement) returns (outcome: Outcome)
      requires Valid()
      modifies this
      ensures Valid()
      ensures var e := Handle(config, includeAttributes, derive, old(discoveredTags), topic, m);
        discoveredTags == e.tags && log == old(log) + e.published && outcome == e.outcome
    {
      if topic == config.hassTopic {
        discoveredTags := map[];
        return Done;
      }
      if m.data.None? {
        return Done;
      }
      var data := m.data.value;
      var mac := TopicMac(topic);
      if IndexOf(data, Marker) == -1 {
        return Done;
      }
      var bytes := HexToBytes(data);
      var fields := DecodeAtc(bytes);
      if fields.None? {
        return Threw;
      }
      var f := fields.value;
      HandleDelivers(config, includeAttributes, derive, discoveredTags, topic, m);
      PublishReading(mac, m, f);
      return Done;
    }

    /** The decoded branch of `handleMessage`: publish the reading and, for a
        device not yet registered, register it and publish its discovery. */
    method PublishReading(mac: string, m: Measurement, f: AtcFields)
      requires Valid()
      modifies this
      ensures Valid()
      ensures var e := Deliver(config, includeAttributes, old(discoveredTags), mac, m, f, derive(f.temperature, f.humidity));
        discoveredTags == e.tags && log == old(log) + e.published
    {
      var out := Reading(f, derive(f.temperature, f.humidity), mac, m);
      var key := NormalizeMac(mac);
      log := log + [Message(StateTopic(config.xiomiTopic, key), StateBody(out), true)];
      if !Lookup(discoveredTags, key) {
        discoveredTags := Assign(discoveredTags, key);
        PublishDiscovery(out);
      }
    }
  }

  /** The seven calls of `publishDiscovery`, one after another, publish the
      table's configs. */
  lemma AtcConfigs(config: Config, allow: seq<string>, out: AtcState, before: seq<Message>)
    requires out.deviceType == AtcType
    ensures before + DiscoveryMessages(config, allow, out)
      == before
      + SensorDiscovery(config, allow, out, TemperatureSpec)
      + SensorDiscovery(config, allow, out, HumiditySpec)
      + SensorDiscovery(config, allow, out, VoltageSpec)
      + SensorDiscovery(config, allow, out, BatterySpec)
      + SensorDiscovery(config, allow, out, AbsoluteHumiditySpec)
      + SensorDiscovery(config, allow, out, DewPointSpec)
      + SensorDiscovery(config, allow, out, EquilibriumVaporPressureSpec)
  {
    var s := AtcSpecs;
    var log0 := before;
    var log1 := log0 + SensorDiscovery(config, allow, out, s[0]);
    var log2 := log1 + SensorDiscovery(config, allow, out, s[1]);
    var log3 := log2 + SensorDiscovery(config, allow, out, s[2]);
    var log4 := log3 + SensorDiscovery(config, allow, out, s[3]);
    var log5 := log4 + SensorDiscovery(config, allow, out, s[4]);
    var log6 := log5 + SensorDiscovery(config, allow, out, s[5]);
    var log7 := log6 + SensorDiscovery(config, allow, out, s[6]);
    assert s[0..] == s;
    ConfigsStep(config, allow, out, s, 0, log0);
    ConfigsStep(config, allow, out, s, 1, log1);
    ConfigsStep(config, allow, out, s, 2, log2);
    ConfigsStep(config, allow, out, s, 3, log3);
    ConfigsStep(config, allow, out, s, 4, log4);
    ConfigsStep(config, allow, out, s, 5, log5);
    ConfigsStep(config, allow, out, s, 6, log6);
    assert s[7..] == [];
    assert log7 + ConfigsFor(config, allow, out, s[7..]) == log7;
  }

  lemma ConfigsStep(config: Config, allow: seq<string>, out: AtcState, s: seq<Spec>, k: nat, before: seq<Message>)
    requires k < |s|
    ensures before + ConfigsFor(config, allow, out, s[k..])
      == (before + SensorDiscovery(config, allow, out, s[k])) + ConfigsFor(config, allow, out, s[k + 1..])
  {
    assert s[k..][1..] == s[k + 1..];
  }
}
