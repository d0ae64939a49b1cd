/**
 * Property lookup on a plain JavaScript object literal such as `{ sm: …, md: … }`
 * or `{}`: a key the object does not own is looked up on `Object.prototype`
 * (ECMAScript 2023, section 20.1.3 and Annex B.2.2), so names like
 * `constructor` or `toString` find an inherited function instead of `undefined`.
 */
module JsObjects {

  /** The properties every plain object inherits from `Object.prototype`. */
  const PrototypeMembers: set<string> := {
    "constructor", "hasOwnProperty", "isPrototypeOf", "propertyIsEnumerable",
    "toLocaleString", "toString", "valueOf", "__proto__",
    "__defineGetter__", "__defineSetter__", "__lookupGetter__", "__lookupSetter__"
  }

  /** What `obj[key]` yields: an own value, an inherited member of `Object.prototype`, or `undefined`. */
  datatype Lookup<V> = Own(value: V) | Inherited(name: string) | Undefined

  /** `obj[key]` on a plain object whose own properties are `own`. */
  function Get<V>(own: map<string, V>, key: string): (r: Lookup<V>)
    ensures r.Own? <==> key in own
    ensures r.Undefined? <==> key !in own && key !in PrototypeMembers
    ensures key in own ==> r == Own(own[key])
    ensures key !in own && key in PrototypeMembers ==> r == Inherited(key)
  {
    if key in own then Own(own[key])
    else if key in PrototypeMembers then Inherited(key)
    else Undefined
  }

  /** `Object.hasOwn(obj, key) ? obj[key] : undefined`: a lookup that ignores the prototype. */
  function GetOwn<V>(own: map<string, V>, key: string): (r: Lookup<V>)
    ensures !r.Inherited?
    ensures r.Own? <==> key in own
    ensures key in own ==> r == Own(own[key])
  {
    if key in own then Own(own[key]) else Undefined
  }

  /** The two lookups differ only on inherited names the object does not own. */
  lemma GetAgreesWithGetOwn<V>(own: map<string, V>, key: string)
    ensures Get(own, key) == GetOwn(own, key) <==> key in own || key !in PrototypeMembers
  {
  }
}
