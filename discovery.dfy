/**
 * Home Assistant discovery: the fixed table of sensor specs for the ATC
 * thermometer, the two skip rules, and the ids, topics, names and templates
 * of the config published for every spec that is not skipped.
 */
module Discovery {
  import opened Wrappers
  import opened JsText
  import opened Mac
  import opened Settings
  import opened Atc
  import opened Messages

  /** One entry of the table: how one attribute of a reading becomes a sensor. */
  datatype Spec = Spec(
    deviceClass: Option<string>,
    namePostfix: string,
    jsonAttribute: string,
    jsonAttributeMutator: string,
    unitOfMeasurement: string,
    precision: nat,
    icon: Option<string>)

  const TemperatureSpec: Spec :=
    Spec(Some("temperature"), "temperature", "temperature", "", "\U{B0}C", 1, None)
  const HumiditySpec: Spec :=
    Spec(Some("humidity"), "humidity", "humidity", "", "%", 1, None)
  const VoltageSpec: Spec :=
    Spec(Some("voltage"), "battery voltage", "voltage", "", "V", 3, None)
  const BatterySpec: Spec :=
    Spec(Some("battery"), "battery", "battery", "", "%", 0, None)
  const AbsoluteHumiditySpec: Spec :=
    Spec(None, "absolute humidity", "absoluteHumidity", "", "g/m\U{B3}", 2, Some("mdi:water"))
  const DewPointSpec: Spec :=
    Spec(Some("temperature"), "dew point", "dewPoint", "", "\U{B0}C", 1, Some("mdi:water"))
  const EquilibriumVaporPressureSpec: Spec :=
    Spec(Some("pressure"), "equilibrium vapor pressure", "equilibriumVaporPressure", "", "Pa", 1, None)

  const AtcSpecs: seq<Spec> := [
    TemperatureSpec, HumiditySpec, VoltageSpec, BatterySpec,
    AbsoluteHumiditySpec, DewPointSpec, EquilibriumVaporPressureSpec]

  /** The `switch (measurement.type)` of `publishDiscovery`: only the ATC type
      has a case. */
  function SpecTable(deviceType: string): (specs: seq<Spec>)
    ensures deviceType == AtcType ==> |specs| == 7
    ensures deviceType != AtcType ==> specs == []
  {
    if deviceType == AtcType then AtcSpecs else []
  }

  function Attributes(specs: seq<Spec>): seq<string> {
    seq(|specs|, i requires 0 <= i < |specs| => specs[i].jsonAttribute)
  }

  /** Pairwise different attribute names. */
  predicate DistinctAttributes(specs: seq<Spec>) {
    forall i, j :: 0 <= i < j < |specs| ==> specs[i].jsonAttribute != specs[j].jsonAttribute
  }

  /** The ATC table covers seven attributes, in this order. */
  lemma AtcSpecAttributes()
    ensures Attributes(SpecTable(AtcType)) == ["temperature", "humidity", "voltage", "battery",
      "absoluteHumidity", "dewPoint", "equilibriumVaporPressure"]
  {
  }

  /** The seven attribute names are pairwise different. */
  lemma AtcSpecsDistinct()
    ensures DistinctAttributes(AtcSpecs)
  {
  }

  /** No ATC attribute name contains `_` or is the `mac` field. */
  lemma AtcSpecsPlain()
    ensures forall s :: s in AtcSpecs ==> Plain(s.jsonAttribute)
  {
    ReadingsPlain();
    DerivedPlain();
  }

  lemma ReadingsPlain()
    ensures Plain(TemperatureSpec.jsonAttribute) && Plain(HumiditySpec.jsonAttribute)
    ensures Plain(VoltageSpec.jsonAttribute) && Plain(BatterySpec.jsonAttribute)
  {
    PlainName("temperature");
    PlainName("humidity");
    PlainName("voltage");
    PlainName("battery");
  }

  lemma DerivedPlain()
    ensures Plain(AbsoluteHumiditySpec.jsonAttribute) && Plain(DewPointSpec.jsonAttribute)
    ensures Plain(EquilibriumVaporPressureSpec.jsonAttribute)
  {
    PlainName("absoluteHumidity");
    PlainName("dewPoint");
    PlainName("equilibriumVaporPressure");
  }

  predicate Plain(attr: string) {
    '_' !in attr && attr != "mac"
  }

  lemma PlainName(attr: string)
    requires forall k :: 0 <= k < |attr| ==> attr[k] != '_'
    requires |attr| != 3
    ensures Plain(attr)
  {
  }

  // Ids, topics and names.

  function ObjectIdPrefix(prefix: string): string {
    if prefix != "" then prefix + "_" else ""
  }

  function UniqueId(key: string, attr: string): string {
    "xiomi_" + key + "_" + attr
  }

  function ObjectId(prefix: string, key: string, attr: string): string {
    ObjectIdPrefix(prefix) + key + "_" + attr
  }

  function ConfigTopic(haPrefix: string, objectId: string): string {
    haPrefix + "/sensor/" + objectId + "/config"
  }

  function StateTopic(xiomiTopic: string, key: string): string {
    xiomiTopic + "/" + key
  }

  /** The device name: the measurement's own name when it has a non-empty
      one, otherwise "Xiomi sensor" and the last six characters of the key. */
  function DeviceName(name: Option<string>, key: string): string {
    if name.Some? && name.value != "" then name.value else "Xiomi sensor " + SliceLast(key, 6)
  }

  function EntityName(name: Option<string>, postfix: string): string {
    if name.Some? && name.value != "" then name.value + " " + postfix else postfix
  }

  function DecimalDigit(d: nat): (c: char)
    requires d < 10
    ensures '0' <= c <= '9' && c as int - '0' as int == d
  {
    ('0' as int + d) as char
  }

  /** `${n}` for a non-negative integer. */
  function Decimal(n: nat): string
    decreases n
  {
    if n < 10 then [DecimalDigit(n)] else Decimal(n / 10) + [DecimalDigit(n % 10)]
  }

  predicate AllDecimal(s: string) {
    forall k :: 0 <= k < |s| ==> '0' <= s[k] <= '9'
  }

  /** The number a string of decimal digits spells, most significant first. */
  function DecimalValue(s: string): nat
    requires AllDecimal(s)
  {
    if s == [] then 0 else 10 * DecimalValue(s[..|s| - 1]) + (s[|s| - 1] as int - '0' as int)
  }

  /** `${n}` spells `n` in decimal digits without a leading zero. */
  lemma {:induction false} DecimalSpell(n: nat)
    ensures AllDecimal(Decimal(n)) && DecimalValue(Decimal(n)) == n
    ensures |Decimal(n)| >= 1 && (|Decimal(n)| > 1 ==> Decimal(n)[0] != '0')
    decreases n
  {
    var s := Decimal(n);
    if n < 10 {
      assert s[..0] == [];
    } else {
      var p := Decimal(n / 10);
      DecimalSpell(n / 10);
      assert s[..|s| - 1] == p;
      assert s[0] == p[0];
    }
  }

  function ValueTemplate(spec: Spec): string {
    "{{ value_json." + spec.jsonAttribute + spec.jsonAttributeMutator
      + " | float | round(" + Decimal(spec.precision) + ") }}"
  }

  const AttributesTemplate: string :=
    "{\n"
    + "      \"mac\": \"{{value_json.mac}}\",\n"
    + "      \"updated\": \"{{value_json.updated}}\",\n"
    + "      \"rssi\": \"{{value_json.rssi}}\",\n"
    + "      \"battery\": \"{{value_json.battery}}\",\n"
    + "      \"voltage\": \"{{value_json.voltage}}\"\n"
    + "    }"

  /** The value templates of the ATC sensors: the attribute read from the
      state, rounded to the spec's precision. */
  lemma AtcValueTemplates()
    ensures ValueTemplate(TemperatureSpec) == Template("temperature", '1')
    ensures ValueTemplate(HumiditySpec) == Template("humidity", '1')
    ensures ValueTemplate(VoltageSpec) == Template("voltage", '3')
    ensures ValueTemplate(BatterySpec) == Template("battery", '0')
    ensures ValueTemplate(AbsoluteHumiditySpec) == Template("absoluteHumidity", '2')
    ensures ValueTemplate(DewPointSpec) == Template("dewPoint", '1')
    ensures ValueTemplate(EquilibriumVaporPressureSpec) == Template("equilibriumVaporPressure", '1')
  {
    PlainTemplate(TemperatureSpec);
    PlainTemplate(HumiditySpec);
    PlainTemplate(VoltageSpec);
    PlainTemplate(BatterySpec);
    PlainTemplate(AbsoluteHumiditySpec);
    PlainTemplate(DewPointSpec);
    PlainTemplate(EquilibriumVaporPressureSpec);
  }

  /** `{{ value_json.<attr> | float | round(<digit>) }}`. */
  function Template(attr: string, digit: char): string {
    "{{ value_json." + attr + " | float | round(" + [digit] + ") }}"
  }

  lemma PlainTemplate(spec: Spec)
    requires spec.jsonAttributeMutator == "" && spec.precision < 10
    ensures ValueTemplate(spec) == Template(spec.jsonAttribute, DecimalDigit(spec.precision))
  {
    assert Decimal(spec.precision) == [DecimalDigit(spec.precision)];
    assert spec.jsonAttribute + spec.jsonAttributeMutator == spec.jsonAttribute;
  }

  /** With no name of its own, a device is called after the last six
      characters of its key. */
  lemma DeviceNameDefault(key: string)
    ensures DeviceName(None, key) == "Xiomi sensor " + key[|key| - Min(6, |key|)..]
    ensures |DeviceName(None, key)| == 13 + Min(6, |key|)
  {
    SliceLastIsSuffix(key, 6);
  }

  /** Within one device, different attributes have different config topics. */
  lemma ConfigTopicInjective(haPrefix: string, prefix: string, key: string, a: string, b: string)
    requires ConfigTopic(haPrefix, ObjectId(prefix, key, a)) == ConfigTopic(haPrefix, ObjectId(prefix, key, b))
    ensures a == b
  {
    var front := haPrefix + "/sensor/" + ObjectIdPrefix(prefix) + key + "_";
    var tail := "/config";
    assert ConfigTopic(haPrefix, ObjectId(prefix, key, a)) == front + a + tail;
    assert ConfigTopic(haPrefix, ObjectId(prefix, key, b)) == front + b + tail;
    CancelAround(front, a, b, tail);
  }

  lemma CancelAround(front: string, a: string, b: string, tail: string)
    requires front + a + tail == front + b + tail
    ensures a == b
  {
    var s := front + a + tail;
    assert |a| == |b|;
    assert a == s[|front|..|front| + |a|];
    assert b == (front + b + tail)[|front|..|front| + |b|];
  }

  /** Unique ids tell devices and attributes apart as long as attribute
      names contain no `_` (as in the ATC table); keys may contain `_`. */
  lemma UniqueIdInjective(k1: string, a1: string, k2: string, a2: string)
    requires '_' !in a1 && '_' !in a2
    requires UniqueId(k1, a1) == UniqueId(k2, a2)
    ensures k1 == k2 && a1 == a2
  {
    var s := UniqueId(k1, a1);
    var t := UniqueId(k2, a2);
    assert s == ("xiomi_" + k1) + "_" + a1;
    assert t == ("xiomi_" + k2) + "_" + a2;
    if |a1| < |a2| {
      SeparatorInside(k1, a1, k2, a2);
      assert false;
    } else if |a2| < |a1| {
      SeparatorInside(k2, a2, k1, a1);
      assert false;
    }
    assert a1 == s[|s| - |a1|..];
    assert a2 == t[|t| - |a2|..];
    assert "xiomi_" + k1 == s[..|s| - |a1| - 1];
    assert "xiomi_" + k2 == t[..|t| - |a2| - 1];
    assert k1 == ("xiomi_" + k1)[6..];
    assert k2 == ("xiomi_" + k2)[6..];
  }

  /** Of two splits of one string at a `_`, the one with the shorter
      right part has its `_` inside the other's right part. */
  lemma SeparatorInside(k1: string, a1: string, k2: string, a2: string)
    requires |a1| < |a2| && '_' !in a2
    ensures ("xiomi_" + k1) + "_" + a1 != ("xiomi_" + k2) + "_" + a2
  {
    var s := ("xiomi_" + k1) + "_" + a1;
    var t := ("xiomi_" + k2) + "_" + a2;
    assert s[|s| - |a1| - 1] == '_';
    assert t[|t| - |a1| - 1] == a2[|a2| - |a1| - 1];
    assert a2[|a2| - |a1| - 1] in a2;
  }

  // The descriptor and its message.

  /** The config of one sensor of reading `out`, with the device key being
      the normalised MAC. `out` has no `name` property, so the default names
      apply. */
  function Describe(config: Config, out: AtcState, spec: Spec): Descriptor {
    var key := NormalizeMac(out.mac);
    var objectId := ObjectId(config.objectIdPrefix, key, spec.jsonAttribute);
    var stateTopic := StateTopic(config.xiomiTopic, key);
    Descriptor(
      UniqueId(key, spec.jsonAttribute),
      objectId,
      EntityName(None, spec.namePostfix),
      spec.deviceClass,
      "measurement",
      stateTopic,
      stateTopic,
      ValueTemplate(spec),
      AttributesTemplate,
      spec.icon,
      spec.unitOfMeasurement,
      Device("Xiomi", out.deviceType, [key], DeviceName(None, key)))
  }

  function ConfigMessage(config: Config, out: AtcState, spec: Spec): (msg: Message)
    ensures msg.retain && msg.payload.ConfigBody?
    ensures msg.topic == ConfigTopic(config.homeassistantTopicPrefix, msg.payload.descriptor.objectId)
  {
    var d := Describe(config, out, spec);
    Message(ConfigTopic(config.homeassistantTopicPrefix, d.objectId), ConfigBody(d), true)
  }

  /** The config of one sensor reads the state topic of its device, is called
      after its spec and names the device by its key. */
  lemma DescribeShape(config: Config, out: AtcState, spec: Spec)
    ensures var d := Describe(config, out, spec); var key := NormalizeMac(out.mac);
      && d.stateTopic == d.jsonAttributesTopic == StateTopic(config.xiomiTopic, key)
      && d.name == spec.namePostfix
      && d.device.identifiers == [key]
      && d.device.name == "Xiomi sensor " + key[|key| - Min(6, |key|)..]
      && d.uniqueId == UniqueId(key, spec.jsonAttribute)
      && d.objectId == ObjectIdPrefix(config.objectIdPrefix) + key + "_" + spec.jsonAttribute
      && d.deviceClass == spec.deviceClass && d.icon == spec.icon
      && d.unitOfMeasurement == spec.unitOfMeasurement && d.stateClass == "measurement"
      && d.valueTemplate == ValueTemplate(spec) && d.jsonAttributesTemplate == AttributesTemplate
      && d.device.manufacturer == "Xiomi" && d.device.model == out.deviceType
  {
    DeviceNameDefault(NormalizeMac(out.mac));
  }

  /** The skip rules: the attribute is falsy in the reading, or a non-empty
      allow-list lacks it. */
  predicate Skipped(allow: seq<string>, out: AtcState, attr: string) {
    !AttributeTruthy(out, attr) || (|allow| > 0 && attr !in allow)
  }

  /** A falsy attribute is always skipped; an empty allow-list admits every
      truthy attribute, and a non-empty one exactly those it names. */
  lemma SkippedByAllowList(allow: seq<string>, out: AtcState, attr: string)
    ensures !AttributeTruthy(out, attr) ==> Skipped(allow, out, attr)
    ensures allow == [] ==> (Skipped(allow, out, attr) <==> !AttributeTruthy(out, attr))
    ensures AttributeTruthy(out, attr) && allow != [] ==> (Skipped(allow, out, attr) <==> attr !in allow)
  {
  }

  /** What one `publishSensorDiscovery` call publishes. */
  function SensorDiscovery(config: Config, allow: seq<string>, out: AtcState, spec: Spec): (msgs: seq<Message>)
    ensures |msgs| <= 1
    ensures msgs == [] <==> Skipped(allow, out, spec.jsonAttribute)
  {
    if Skipped(allow, out, spec.jsonAttribute) then [] else [ConfigMessage(config, out, spec)]
  }

  /** The specs that are not skipped, in table order. */
  function Kept(allow: seq<string>, out: AtcState, specs: seq<Spec>): (kept: seq<Spec>)
    ensures |kept| <= |specs|
    ensures forall s :: s in kept ==> s in specs
  {
    if specs == [] then []
    else
      var rest := Kept(allow, out, specs[1..]);
      assert forall s :: s in rest ==> s in specs;
      if Skipped(allow, out, specs[0].jsonAttribute) then rest else [specs[0]] + rest
  }

  /** A spec survives exactly when it is in the table and no skip rule
      applies to it. */
  lemma {:induction false} KeptFilters(allow: seq<string>, out: AtcState, specs: seq<Spec>)
    ensures forall s :: s in Kept(allow, out, specs) <==> s in specs && !Skipped(allow, out, s.jsonAttribute)
  {
    if specs != [] {
      KeptFilters(allow, out, specs[1..]);
      assert forall s :: s in specs <==> s == specs[0] || s in specs[1..];
    }
  }

  /** Dropping specs keeps the attribute names pairwise different. */
  lemma {:induction false} KeptDistinct(allow: seq<string>, out: AtcState, specs: seq<Spec>)
    requires DistinctAttributes(specs)
    ensures DistinctAttributes(Kept(allow, out, specs))
  {
    if specs != [] {
      var rest := specs[1..];
      assert DistinctAttributes(rest) by {
        forall i, j | 0 <= i < j < |rest|
          ensures rest[i].jsonAttribute != rest[j].jsonAttribute
        {
          assert rest[i] == specs[i + 1] && rest[j] == specs[j + 1];
        }
      }
      KeptDistinct(allow, out, rest);
      var kr := Kept(allow, out, rest);
      if !Skipped(allow, out, specs[0].jsonAttribute) {
        var kept := [specs[0]] + kr;
        forall j | 0 < j < |kept|
          ensures specs[0].jsonAttribute != kept[j].jsonAttribute
        {
          assert kept[j] == kr[j - 1];
          assert kr[j - 1] in rest;
          var m :| 0 <= m < |rest| && rest[m] == kr[j - 1];
          assert specs[m + 1] == rest[m];
        }
        forall i, j | 0 <= i < j < |kept|
          ensures kept[i].jsonAttribute != kept[j].jsonAttribute
        {
          if i > 0 {
            assert kept[i] == kr[i - 1] && kept[j] == kr[j - 1];
          }
        }
      }
    }
  }

  /** What a sequence of `publishSensorDiscovery` calls publishes. */
  function ConfigsFor(config: Config, allow: seq<string>, out: AtcState, specs: seq<Spec>): (msgs: seq<Message>)
    ensures |msgs| <= |specs|
    ensures forall i :: 0 <= i < |msgs| ==> msgs[i].retain && msgs[i].payload.ConfigBody?
  {
    if specs == [] then []
    else SensorDiscovery(config, allow, out, specs[0]) + ConfigsFor(config, allow, out, specs[1..])
  }

  /** The published configs are those of the kept specs, one each, in order. */
  lemma {:induction false} ConfigsForKept(config: Config, allow: seq<string>, out: AtcState, specs: seq<Spec>)
    ensures var msgs := ConfigsFor(config, allow, out, specs); var kept := Kept(allow, out, specs);
      |msgs| == |kept| && forall i :: 0 <= i < |kept| ==> msgs[i] == ConfigMessage(config, out, kept[i])
  {
    if specs != [] {
      var rest, krest := ConfigsFor(config, allow, out, specs[1..]), Kept(allow, out, specs[1..]);
      ConfigsForKept(config, allow, out, specs[1..]);
      if !Skipped(allow, out, specs[0].jsonAttribute) {
        var head := ConfigMessage(config, out, specs[0]);
        assert ConfigsFor(config, allow, out, specs) == [head] + rest;
        assert Kept(allow, out, specs) == [specs[0]] + krest;
      }
    }
  }

  /** What `publishDiscovery` publishes for a reading. */
  function DiscoveryMessages(config: Config, allow: seq<string>, out: AtcState): (msgs: seq<Message>)
    ensures |msgs| <= 7
    ensures out.deviceType != AtcType ==> msgs == []
    ensures forall i :: 0 <= i < |msgs| ==> msgs[i].retain && msgs[i].payload.ConfigBody?
  {
    ConfigsFor(config, allow, out, SpecTable(out.deviceType))
  }

  /** A published config belongs to a spec that is not skipped, and every
      such spec has its config published. */
  lemma ConfigsForCoversKept(config: Config, allow: seq<string>, out: AtcState, specs: seq<Spec>)
    ensures var msgs := ConfigsFor(config, allow, out, specs);
      forall msg :: msg in msgs <==>
        (exists s :: s in specs && !Skipped(allow, out, s.jsonAttribute) && msg == ConfigMessage(config, out, s))
  {
    var msgs := ConfigsFor(config, allow, out, specs);
    var kept := Kept(allow, out, specs);
    ConfigsForKept(config, allow, out, specs);
    KeptFilters(allow, out, specs);
    forall msg
      ensures msg in msgs <==> (exists s :: s in kept && msg == ConfigMessage(config, out, s))
    {
      if msg in msgs {
        var i :| 0 <= i < |msgs| && msgs[i] == msg;
        assert kept[i] in kept;
      }
      if s :| s in kept && msg == ConfigMessage(config, out, s) {
        var i :| 0 <= i < |kept| && kept[i] == s;
        assert msgs[i] == msg;
      }
    }
  }

  /** The configs of one device go to pairwise different topics. */
  lemma DiscoveryTopicsDistinct(config: Config, allow: seq<string>, out: AtcState)
    ensures var msgs := DiscoveryMessages(config, allow, out);
      forall i, j :: 0 <= i < j < |msgs| ==> msgs[i].topic != msgs[j].topic
  {
    if out.deviceType == AtcType {
      AtcSpecsDistinct();
    }
    ConfigsForTopicsDistinct(config, allow, out, SpecTable(out.deviceType));
    assert DiscoveryMessages(config, allow, out) == ConfigsFor(config, allow, out, SpecTable(out.deviceType));
  }

  lemma ConfigsForTopicsDistinct(config: Config, allow: seq<string>, out: AtcState, specs: seq<Spec>)
    requires DistinctAttributes(specs)
    ensures var msgs := ConfigsFor(config, allow, out, specs);
      forall i, j :: 0 <= i < j < |msgs| ==> msgs[i].topic != msgs[j].topic
  {
    var msgs := ConfigsFor(config, allow, out, specs);
    var kept := Kept(allow, out, specs);
    ConfigsForKept(config, allow, out, specs);
    KeptDistinct(allow, out, specs);
    forall i, j | 0 <= i < j < |msgs|
      ensures msgs[i].topic != msgs[j].topic
    {
      var key := NormalizeMac(out.mac);
      if msgs[i].topic == msgs[j].topic {
        ConfigTopicInjective(config.homeassistantTopicPrefix, config.objectIdPrefix, key,
          kept[i].jsonAttribute, kept[j].jsonAttribute);
        assert false;
      }
    }
  }

  /** With an allow-list of one table attribute, only that sensor may be
      announced, and it is whenever its value is truthy. */
  lemma DiscoverySingleAllowed(config: Config, out: AtcState, spec: Spec)
    requires out.deviceType == AtcType && spec in AtcSpecs
    ensures DiscoveryMessages(config, [spec.jsonAttribute], out)
      == if AttributeTruthy(out, spec.jsonAttribute) then [ConfigMessage(config, out, spec)] else []
  {
    AtcSpecsDistinct();
    var specs := SpecTable(out.deviceType);
    var allow := [spec.jsonAttribute];
    ConfigsForSingleAllowed(config, out, spec, specs);
    assert ConfigsFor(config, allow, out, specs)
      == if AttributeTruthy(out, spec.jsonAttribute) then [ConfigMessage(config, out, spec)] else [];
    assert DiscoveryMessages(config, allow, out) == ConfigsFor(config, allow, out, specs);
  }

  lemma ConfigsForSingleAllowed(config: Config, out: AtcState, spec: Spec, specs: seq<Spec>)
    requires DistinctAttributes(specs) && spec in specs
    ensures ConfigsFor(config, [spec.jsonAttribute], out, specs)
      == if AttributeTruthy(out, spec.jsonAttribute) then [ConfigMessage(config, out, spec)] else []
  {
    var allow := [spec.jsonAttribute];
    var kept := Kept(allow, out, specs);
    ConfigsForKept(config, allow, out, specs);
    KeptDistinct(allow, out, specs);
    KeptFilters(allow, out, specs);
    forall s | s in kept
      ensures s == spec
    {
      var i :| 0 <= i < |specs| && specs[i] == s;
      var j :| 0 <= j < |specs| && specs[j] == spec;
    }
    assert forall k | 0 <= k < |kept| :: kept[k] == spec;
    assert |kept| > 1 ==> kept[0].jsonAttribute != kept[1].jsonAttribute;
    assert |kept| <= 1;
    assert |kept| > 0 ==> kept[0] in kept;
    var msgs := ConfigsFor(config, allow, out, specs);
    if AttributeTruthy(out, spec.jsonAttribute) {
      assert spec in kept;
      assert |kept| == 1 && kept[0] == spec;
      assert msgs == [ConfigMessage(config, out, kept[0])];
    } else {
      assert |kept| == 0;
      assert msgs == [];
    }
  }

  /** Without an allow-list and with every attribute truthy, all seven
      sensors are announced in table order. */
  lemma DiscoveryAllSeven(config: Config, out: AtcState)
    requires out.deviceType == AtcType
    requires forall s :: s in AtcSpecs ==> AttributeTruthy(out, s.jsonAttribute)
    ensures var msgs := DiscoveryMessages(config, [], out);
      |msgs| == 7 && forall i :: 0 <= i < 7 ==> msgs[i] == ConfigMessage(config, out, AtcSpecs[i])
  {
    KeptAll(out, AtcSpecs);
    ConfigsForKept(config, [], out, AtcSpecs);
  }

  lemma {:induction false} KeptAll(out: AtcState, specs: seq<Spec>)
    requires forall s :: s in specs ==> AttributeTruthy(out, s.jsonAttribute)
    ensures Kept([], out, specs) == specs
  {
    if specs != [] {
      assert forall s :: s in specs[1..] ==> s in specs;
      KeptAll(out, specs[1..]);
      assert specs == [specs[0]] + specs[1..];
    }
  }

  /** Only the normal form of the MAC matters: readings whose MACs normalise
      alike produce the same configs. */
  lemma DiscoveryDependsOnKey(config: Config, allow: seq<string>, out: AtcState, mac: string)
    requires NormalizeMac(mac) == NormalizeMac(out.mac)
    ensures DiscoveryMessages(config, allow, out.(mac := mac)) == DiscoveryMessages(config, allow, out)
  {
    AtcSpecsPlain();
    ConfigsForKey(config, allow, out, mac, SpecTable(out.deviceType));
  }

  lemma {:induction false} ConfigsForKey(config: Config, allow: seq<string>, out: AtcState, mac: string, specs: seq<Spec>)
    requires NormalizeMac(mac) == NormalizeMac(out.mac)
    requires forall s :: s in specs ==> s.jsonAttribute != "mac"
    ensures ConfigsFor(config, allow, out.(mac := mac), specs) == ConfigsFor(config, allow, out, specs)
  {
    if specs != [] {
      assert forall s :: s in specs[1..] ==> s in specs;
      ConfigsForKey(config, allow, out, mac, specs[1..]);
      assert specs[0] in specs;
      TruthyWithoutMac(out, mac, specs[0].jsonAttribute);
    }
  }

  lemma TruthyWithoutMac(out: AtcState, mac: string, attr: string)
    requires attr != "mac"
    ensures AttributeTruthy(out.(mac := mac), attr) == AttributeTruthy(out, attr)
  {
  }
}
