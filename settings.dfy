/**
 * The gateway's configuration, as far as the engine reads it, and the
 * attribute allow-list the constructor derives from it.
 */
module Settings {
  import opened JsText

  /** The configuration fields the engine uses; broker address and
      credentials belong to the MQTT connection and are not modelled. */
  datatype Config = Config(
    xiomiTopic: string,
    homeassistantTopicPrefix: string,
    hassTopic: string,
    objectIdPrefix: string,
    attributes: string)

  /** The allow-list: `attributes.split(',')` when the setting is non-empty,
      otherwise empty (which admits every attribute). */
  function IncludeAttributes(attributes: string): (allow: seq<string>)
    ensures |allow| > 0 <==> attributes != ""
    ensures forall i :: 0 <= i < |allow| ==> ',' !in allow[i]
    ensures attributes != "" ==> Join(allow, ',') == attributes
  {
    if attributes != "" then Split(attributes, ',') else []
  }

  /** Joining names with commas and reading the setting back yields the same
      names, so every comma-free list of names can be configured. */
  lemma IncludeAttributesJoin(names: seq<string>)
    requires |names| >= 1 && Join(names, ',') != ""
    requires forall i :: 0 <= i < |names| ==> ',' !in names[i]
    ensures IncludeAttributes(Join(names, ',')) == names
  {
    SplitJoin(names, ',');
  }

  /** A single name without a comma is an allow-list of just that name. */
  lemma IncludeSingle(name: string)
    requires name != "" && ',' !in name
    ensures IncludeAttributes(name) == [name]
  {
    IncludeAttributesJoin([name]);
  }
}
