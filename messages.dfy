/**
 * What the gateway publishes: a topic, a body and the retain flag. Bodies are
 * records; their JSON serialisation is not modelled.
 */
module Messages {
  import opened Wrappers
  import opened Atc

  /** The `device` block of a discovery config. */
  datatype Device = Device(manufacturer: string, model: string, identifiers: seq<string>, name: string)

  /** A Home Assistant MQTT discovery config for one sensor entity.
      `deviceClass` and `icon` are omitted from the JSON when None. */
  datatype Descriptor = Descriptor(
    uniqueId: string,
    objectId: string,
    name: string,
    deviceClass: Option<string>,
    stateClass: string,
    stateTopic: string,
    jsonAttributesTopic: string,
    valueTemplate: string,
    jsonAttributesTemplate: string,
    icon: Option<string>,
    unitOfMeasurement: string,
    device: Device)

  datatype Payload = StateBody(state: AtcState) | ConfigBody(descriptor: Descriptor)

  datatype Message = Message(topic: string, payload: Payload, retain: bool)
}
