# ruuvigw-xiomi-ha-mqtt: a Dafny model of the ATC engine

The gateway in `app.js` receives measurements forwarded from BLE sensors over
MQTT. It does the following with them:

- It recognises readings of Xiaomi thermometers running the alternative "ATC"
  firmware by a marker in the hex payload.
- It decodes temperature, humidity, battery level and voltage from fixed byte
  offsets.
- It publishes the reading as a retained state message.
- Once per device it announces up to seven Home Assistant sensors through
  retained MQTT discovery configs.
- It clears its registry of announced devices when Home Assistant reports on
  its status topic.

This project models that engine and proves properties of it. The modules are:

- `JsNumber`, `JsText`, `JsObject`: the JavaScript semantics the engine
  depends on.
  - `parseInt(s, 16)`: leading white space, sign, `0x` prefix, the longest
    hex-digit prefix, `NaN`.
  - `Number.prototype.toString(16)`.
  - `substr`, `slice(-n)`, `indexOf`, `replaceAll` of one character,
    `toLowerCase`, `split`.
  - Property lookup on a plain object literal, including names it inherits
    from `Object.prototype`.
- `HexCodec`: `hexToBytes` and `intToHex` and the round trips between them.
- `Mac`: the MAC taken from the topic, and its normal form used as the device
  key.
- `Atc`: the classification of a payload, the field extraction, and the
  published reading.
- `Settings`: the configuration and the attribute allow-list.
- `Messages`: the published messages, as records.
- `Discovery`: the seven-entry spec table, the skip rules, and the ids,
  topics, names and templates of a discovery config.
- `Gateway`: the pure function `Handle` and the class `App`.
  - `Handle` states what one inbound message does to the registry and which
    messages it publishes.
  - `App` holds the registry `discoveredTags` and the log of publishes, and
    updates them in its methods.
  - Each method of `App` is proved to do what `Handle` and the discovery
    functions state.

Notes on the model:

- **Raw numbers.** Numbers produced by `parseInt` are `NaN` or integers.
  Temperature and voltage are kept as raw integers, in tenths of a degree and
  in millivolts; the divisions by 10 and 1000 are not modelled.
- **Temperature is unsigned.** It is read unsigned, as `app.js` reads it, so
  on a payload of hex digits the raw value lies in 0..65535
  (`Atc.DecodeAtcPayload`, `Atc.PayloadWord`). On payloads with other
  characters `parseInt` and `toString(16)` can carry a sign through, and the
  model follows JavaScript there.
- **Short payloads throw.** A classified payload too short for 16 bytes makes
  `intToHex(undefined)` throw. This is modelled as the outcome `Threw`, with
  nothing published and the registry unchanged.
- **The registry is a plain object.** `discoveredTags` is a JavaScript object
  literal, so a lookup of a key it does not own falls back to
  `Object.prototype`. A device whose key is `constructor` or `__proto__` is
  therefore never announced (`Gateway.HandleInheritedKey`). Assigning to
  `__proto__` has no effect.
- **Two configs are the same object here.** The source reads the status topic
  from `self.config` and the other settings from the module-level `config`.
  The app is constructed from that same module-level object, so the model uses
  one `Config`.

## Model

| member | source | states |
|---|---|---|
| `JsNumber.ParseIntHexDigits` | app.js:265 | `parseInt(s, 16)` of a non-empty string of hex digits is the number the digits spell |
| `JsNumber.HexDigitsSpell` | app.js:269 | `n.toString(16)` spells `n` in hex digits: no upper-case letter, no leading zero |
| `JsNumber.ParseIntHexSpace` | app.js:265 | `parseInt` skips leading white space: white space followed by `s` parses as `s` |
| `JsNumber.ParseIntHexStops` | app.js:265 | `parseInt` reads the longest run of hex digits and ignores the rest from the first non-digit on |
| `JsNumber.ParseIntHexSigned` | app.js:265 | a leading `-` negates the value of the digits after it, and a leading `+` keeps it |
| `JsNumber.ParseIntHexPrefixed` | app.js:265 | a `0x` or `0X` prefix before the digits is skipped |
| `JsNumber.ParseIntHexNoDigits` | app.js:265 | a string that is empty or starts with a character that is not white space, a sign or a digit parses to `NaN` |
| `JsNumber.ToStringHexParse` | app.js:269 | `parseInt(n.toString(16), 16)` gives back `n` for every number `parseInt` yields, `NaN` included |
| `JsNumber.HexValueAppend` | app.js:85 | the value of two digit strings joined is the first value times 16 to the length of the second, plus the second value |
| `JsText.Substr` | app.js:265 | `substr(start, n)` has `min(n, length - start)` characters, or none past the end, and character `k` of it is character `start + k` of the string |
| `JsText.SliceLastIsSuffix` | app.js:269 | for `n >= 1`, `slice(-n)` is the suffix of length `min(n, length)` |
| `JsText.IndexOf` | app.js:82 | `indexOf` is -1 exactly when the pattern occurs nowhere; otherwise it is the first occurrence |
| `JsText.RemoveChar` | app.js:104 | `replaceAll(':', '')` leaves no `:`, and every other character occurs in the result exactly when it occurs in the input |
| `JsText.RemoveCharAppend` | app.js:104 | removal distributes over concatenation, so it works character by character and keeps the order |
| `JsText.RemoveCharOne` | app.js:104 | a single character is removed exactly when it is `:` and kept otherwise |
| `JsText.ToLowerCase` | app.js:104 | `toLowerCase` preserves the length and lowercases each character |
| `JsText.Split` | app.js:32 | `split(',')` returns at least one part, no part contains `,`, and joining the parts with `,` gives back the input |
| `JsText.SplitJoin` | app.js:32 | splitting comma-joined comma-free parts gives back the parts |
| `JsObject.LookupAllTrue` | app.js:110 | on a registry whose own values are all `true`, `!registry[key]` is false exactly when the key was registered or is inherited from `Object.prototype` |
| `JsObject.Assign` | app.js:111 | after `tags[key] = true`, the key is truthy and no other key's lookup changes |
| `HexCodec.HexBytes` | app.js:263-267 | `hexToBytes` returns `ceil(length / 2)` numbers |
| `HexCodec.HexBytesAt` | app.js:264-265 | number `i` is `parseInt(hex.substr(2i, 2), 16)` |
| `HexCodec.HexToBytes` | app.js:263-267 | the loop pushing one parsed chunk per step returns exactly `HexBytes(hex)` |
| `HexCodec.HexBytesOfDigits` | app.js:264-265 | on a hex-digit string each byte is in 0..255 and equals 16 times its first digit plus its second; a lone last digit is its own value |
| `HexCodec.IntToHex` | app.js:268-270 | `intToHex` always returns two characters |
| `HexCodec.IntToHexByte` | app.js:268-270 | for a byte `b`, `intToHex(b)` is the two lower-case digits of `b / 16` and `b % 16` |
| `HexCodec.IntToHexParse` | app.js:268-270 | parsing `intToHex(b)` gives back `b` |
| `HexCodec.IntToHexPair` | app.js:85 | parsing `intToHex(a) + intToHex(b)` gives the big-endian value `256 * a + b` |
| `HexCodec.HexBytesEncodeBytes` | app.js:263-270 | `hexToBytes` of the concatenated `intToHex` renderings gives back the bytes |
| `HexCodec.EncodePairValues` | app.js:263-270 | for lower-case hex of even length, rendering the parsed bytes gives back the string |
| `Mac.TopicMac` | app.js:80 | the MAC is the suffix of the topic after its last `/`, and it contains no `/` |
| `Mac.TopicMacLastSegment` | app.js:80 | the MAC of a topic `<prefix>/<mac>` is `mac`, whatever the prefix |
| `Mac.NormalizeMac` | app.js:104 | the device key has no `:` and no upper-case letter, and is no longer than the MAC |
| `Mac.NormalizeFixesKeys` | app.js:223 | a key already in normal form is its own normal form |
| `Mac.NormalizeIdempotent` | app.js:104 | normalising twice is normalising once |
| `Atc.FlashedAtcIsSubstring` | app.js:82 | classification (`Atc.IsFlashedAtc`) holds exactly when the marker occurs at some character offset |
| `Atc.LowerCasePayloadNotFlashedAtc` | app.js:82 | the test is case-sensitive: a payload without upper-case letters is never classified |
| `Atc.DecodeAtc` | app.js:84-95 | field extraction fails exactly when fewer than 16 numbers exist |
| `Atc.DecodeAtcBytes` | app.js:85-95 | on bytes, temperature is `256*b[10] + b[11]`, humidity `b[12]`, battery `b[13]`, voltage `256*b[14] + b[15]` |
| `Atc.DecodeAtcPayload` | app.js:84-95 | on a hex payload of at least 31 digits the decode succeeds, with the fields of `DecodeAtcBytes` on in-range bytes |
| `Atc.ByteOfPayload` | app.js:264-265 | byte `k` of a hex payload is the number spelt by digits `2k` and `2k+1`, below 256 |
| `Atc.PayloadWord` | app.js:85 | the big-endian word of bytes `k`, `k+1` is the number spelt by digits `2k` to `2k+3` |
| `Atc.Reading` | app.js:91-103 | the published reading has type `ACT_MI_TEMP` and the raw MAC of the topic |
| `Atc.AttributeTruthyRaw` | app.js:213 | `!measurement[attr]` for the four raw fields: each is falsy exactly when it is 0 or `NaN`, so a reading of exactly 0 counts as absent |
| `Atc.AttributeTruthyNonField` | app.js:213 | a name that is not a property of the reading is truthy exactly when it is inherited from `Object.prototype` |
| `Settings.IncludeAttributes` | app.js:31-33 | the allow-list is non-empty exactly when the setting is, its names contain no `,`, and joined with `,` they are the setting |
| `Settings.IncludeAttributesJoin` | app.js:31-33 | any comma-free list of names is read back from its comma-joined setting |
| `Settings.IncludeSingle` | app.js:32 | a single name is an allow-list of that name alone |
| `Discovery.SpecTable` | app.js:148-208 | the ATC type has seven specs, and every other type has none |
| `Discovery.AtcSpecAttributes` | app.js:149-206 | the seven attributes in call order: temperature, humidity, voltage, battery, absoluteHumidity, dewPoint, equilibriumVaporPressure |
| `Discovery.AtcSpecsDistinct` | app.js:149-206 | the seven attribute names are pairwise distinct |
| `Discovery.AtcSpecsPlain` | app.js:149-206 | no attribute name contains `_` or is `mac` |
| `Discovery.DeviceNameDefault` | app.js:228 | without a name, the device is called `"Xiomi sensor "` followed by the last six characters of the key |
| `Discovery.ConfigTopicInjective` | app.js:225-226 | within one device, different attributes have different config topics |
| `Discovery.UniqueIdInjective` | app.js:224 | unique ids of different (key, attribute) pairs differ when attribute names have no `_` |
| `Discovery.DescribeShape` | app.js:222-257 | the config `Discovery.Describe` builds: the device's state topic for state and attributes, the spec's name, class, icon, unit and value template, the fixed attributes template and state class, the unique and object ids of key and attribute, and a device made by "Xiomi" of the reading's type, identified and named by its key |
| `Discovery.DecimalSpell` | app.js:230 | `${precision}` spells the precision in decimal digits without a leading zero |
| `Discovery.AtcValueTemplates` | app.js:230 | each ATC sensor's value template reads its attribute and rounds it to the table's precision: 1, 1, 3, 0, 2, 1, 1 |
| `Discovery.SkippedByAllowList` | app.js:213-217 | a falsy attribute is skipped; an empty allow-list admits every truthy attribute, and a non-empty one exactly those it names |
| `Discovery.ConfigMessage` | app.js:226 | the config is retained and published on `<prefix>/sensor/<objectId>/config` |
| `Discovery.SensorDiscovery` | app.js:211-261 | one call publishes nothing exactly when a skip rule applies (falsy value, or not in a non-empty allow-list), otherwise one config |
| `Discovery.Kept` | app.js:213-221 | the surviving specs are among the table's specs, at most as many |
| `Discovery.KeptFilters` | app.js:213-221 | a spec survives the skip rules exactly when it is in the table and no rule applies |
| `Discovery.KeptDistinct` | app.js:213-221 | the surviving specs keep distinct attribute names |
| `Discovery.ConfigsFor` | app.js:150-206 | a sequence of calls publishes at most one config per spec, each retained |
| `Discovery.ConfigsForKept` | app.js:150-206 | the published configs are those of the surviving specs, one each, in table order |
| `Discovery.ConfigsForCoversKept` | app.js:211-261 | a config is published exactly when its spec is in the table and not skipped |
| `Discovery.DiscoveryMessages` | app.js:146-209 | at most seven configs per device, all retained; none for a type other than ATC |
| `Discovery.DiscoveryTopicsDistinct` | app.js:226 | one device's configs go to pairwise different topics |
| `Discovery.DiscoverySingleAllowed` | app.js:217 | with a one-attribute allow-list, only that sensor is announced, exactly when its value is truthy |
| `Discovery.DiscoveryAllSeven` | app.js:146-209 | with no allow-list and every value truthy, all seven configs are published in table order |
| `Discovery.DiscoveryDependsOnKey` | app.js:223 | MACs that normalise alike produce the same configs |
| `Gateway.KeyOfTopic` | app.js:104 | the registry key of a topic `<prefix>/<mac>` is the normal form of its last segment `mac` |
| `Gateway.StateMessage` | app.js:109 | the state message is a retained reading |
| `Gateway.Handle` | app.js:68-116 | the handler throws only with nothing published and the registry unchanged, and publishes at most eight messages |
| `Gateway.Deliver` | app.js:91-113 | the decoded branch returns normally and publishes one to eight messages |
| `Gateway.DeliverShape` | app.js:104-113 | the state comes first, discovery follows exactly for an unknown device, the device is then registered, other keys are untouched, and a known device leaves the registry unchanged |
| `Gateway.HandleDelivers` | app.js:82-113 | a decodable message decodes and takes the decoded branch |
| `Gateway.DecodesHasFields` | app.js:84-85 | the decode yields fields exactly when the payload has at least 31 characters |
| `Gateway.HandleReset` | app.js:70-73 | the status topic empties the registry and publishes nothing; afterwards only inherited names look registered |
| `Gateway.HandlePublishes` | app.js:76-114 | something is published exactly when the message is not on the status topic, has `data`, carries the marker and has at least 31 characters |
| `Gateway.HandleThrows` | app.js:84-85 | the handler throws exactly on a classified payload shorter than 31 characters, and then changes nothing |
| `Gateway.HandleDecoded` | app.js:104-113 | a decoded message publishes its reading on `<xiomiTopic>/<key>` first, then discovery exactly when the key was unknown, and registers the key |
| `Gateway.HandleOneState` | app.js:109-112 | exactly one state message, first; every later publish is a retained config |
| `Gateway.HandleKnown` | app.js:110 | a registered device publishes only its state and leaves the registry as it is |
| `Gateway.HandleSecondMessage` | app.js:109-113 | a second message from the same device publishes only its state |
| `Gateway.HandleRediscover` | app.js:72-113 | after a reset the next message of a device announces it again, unless its key is an inherited name |
| `Gateway.HandleInheritedKey` | app.js:110 | a device keyed `__proto__` or `constructor` is never announced |
| `Gateway.AtcConfigs` | app.js:150-206 | the seven calls one after another publish the table's configs |
| `Gateway.App.RegistryLookup` | app.js:110 | while the registry is valid, a key looks registered exactly when it was registered or is inherited from `Object.prototype` |
| `Gateway.App.constructor` | app.js:28-33 | the app starts with an empty registry and log and the allow-list of its setting |
| `Gateway.App.PublishSensorDiscovery` | app.js:211-261 | the log grows by exactly what `SensorDiscovery` states |
| `Gateway.App.PublishDiscovery` | app.js:146-209 | the log grows by exactly the table's discovery configs |
| `Gateway.App.HandleMessage` | app.js:68-116 | the registry, the log and the outcome become what `Handle` states, and every registered key stays normal and true |
| `Gateway.App.PublishReading` | app.js:91-113 | the registry and the log become what `Deliver` states |

## Left out

- MQTT connection, subscription, reconnection and error handlers (app.js:34-66): network I/O. A publish is an append to the log `App.log`.
- `debug` and `console.log` logging (app.js:2-6, 21, 106, 214, 218-219, 259): no effect on state or publishes.
- `JSON.parse` of the inbound payload (app.js:76) and `JSON.stringify` of the outbound bodies: the measurement and the bodies are records. A payload that is not JSON, or whose `data` is neither absent nor a string, is not modelled.
- Floating-point arithmetic: the divisions by 10 and 1000 (app.js:85, 95), and the derivations and rounding (app.js:87-90, 96-98). The derived values are an uninterpreted function `derive` of raw temperature and humidity, given to `App`. All that is used of them is whether they are truthy.
- Temperature and voltage: published and tested for truthiness as raw integers. Dividing by 10 or 1000 keeps a number truthy exactly when it was.
- The unreachable code after `return` (app.js:116-143): it is dead.
- Environment configuration (app.js:8-19): the configuration is a constructor parameter. Broker host, port and credentials are not part of it.
- `JsText.ToLowerCase`: lowercases ASCII letters only; other Unicode case mappings are not modelled.
- `JsNumber.ParseIntHexDigits`: states the value of all-digit strings only. White space, a sign, a `0x` prefix and a string without digits have lemmas of their own; combinations of them (a sign followed by `0x`, say) have none.
- `JsNumber.Num`: numbers are exact integers. JavaScript's `parseInt` rounds to the nearest double once the value exceeds 2^53 (14 or more hex digits). The engine parses strings of at most four characters, where the two agree.
- Strings: Dafny strings are sequences of Unicode scalar values, while JavaScript's `length`, `substr` and `slice` count UTF-16 code units. The two differ on characters outside the Basic Multilingual Plane.
- An exception thrown by `handleMessage` escapes the `'message'` listener (app.js:62-65). What the MQTT client or Node.js does then is not modelled: `App.HandleMessage` returns `Threw` and the app carries on with its state unchanged.
- `measurement.name` (app.js:228-229) is never a property of the reading passed to discovery, so only the default names are produced. The named branch is kept in `Discovery.DeviceName` and `Discovery.EntityName` but never taken.
