/**
 * Property lookup on a plain JavaScript object literal `{}`: names that are
 * not own properties are looked up on `Object.prototype`.
 */
module JsObject {

  /** The properties every plain object inherits from `Object.prototype`. */
  const PrototypeProperties: set<string> := {
    "constructor", "__proto__", "__defineGetter__", "__defineSetter__",
    "__lookupGetter__", "__lookupSetter__", "hasOwnProperty", "isPrototypeOf",
    "propertyIsEnumerable", "toString", "toLocaleString", "valueOf"
  }

  /** `!!obj[key]` for an object whose own properties hold the booleans `own`.
      `__proto__` is an accessor that always yields `Object.prototype`, and
      every other inherited property is a function: all of them are truthy. */
  function Lookup(own: map<string, bool>, key: string): bool {
    if key == "__proto__" then true
    else if key in own then own[key]
    else key in PrototypeProperties
  }

  /** `obj[key] = true`. Assigning a non-object to `__proto__` changes nothing. */
  function Assign(own: map<string, bool>, key: string): (own': map<string, bool>)
    ensures Lookup(own', key)
    ensures forall k :: k != key ==> Lookup(own', k) == Lookup(own, k)
  {
    if key == "__proto__" then own else own[key := true]
  }

  /** Every own property holds `true`, as in a registry of seen devices. */
  predicate AllTrue(own: map<string, bool>) {
    forall k :: k in own ==> own[k]
  }

  /** On such an object a name looks present exactly when it is an own
      property or one every object inherits. */
  lemma LookupAllTrue(own: map<string, bool>, key: string)
    requires AllTrue(own)
    ensures Lookup(own, key) <==> key in own || key in PrototypeProperties
  {
  }
}
