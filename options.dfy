/** The application's option store. The options object is created with the defaults
    object as its prototype and the caller's options copied onto it as own properties,
    so a read finds an own property first and a default second. */
module Options {

  import opened Js

  /** The defaults object: three to twelve peers, no seeds, the console as logger. */
  const Defaults: map<string, JsValue> :=
    map["minPeers" := Num(3), "maxPeers" := Num(12), "seeds" := StrArray([]), "logger" := Obj]

  /** `options[key]`: the own property if there is one, else the default, else undefined. */
  function Lookup(own: map<string, JsValue>, key: string): JsValue
  {
    if key in own then own[key] else if key in Defaults then Defaults[key] else Undefined
  }

  /** `get(key)`, which returns `options[key] || null`: the stored value when it is
      truthy, and null for every falsy value (0, "", false, undefined, null). */
  function Get(own: map<string, JsValue>, key: string): (r: JsValue)
    ensures r == Null || Truthy(r)
    ensures Truthy(Lookup(own, key)) ==> r == Lookup(own, key)
    ensures !Truthy(Lookup(own, key)) ==> r == Null
  {
    var v := Lookup(own, key);
    if Truthy(v) then v else Null
  }

  /** The options after `set(key, value)`: the key now reads as `value`, every other key
      reads as before. */
  function Set(own: map<string, JsValue>, key: string, value: JsValue): (own': map<string, JsValue>)
    ensures Lookup(own', key) == value
    ensures forall k :: k != key ==> Lookup(own', k) == Lookup(own, k)
    ensures own'.Keys == own.Keys + {key}
  {
    own[key := value]
  }

  /** Reading an option back after setting it gives the value, or null when the value
      is falsy: `set("minPeers", 0)` makes `get("minPeers")` null. */
  lemma GetAfterSet(own: map<string, JsValue>, key: string, value: JsValue)
    ensures Get(Set(own, key, value), key) == (if Truthy(value) then value else Null)
  {
  }

  /** With no options given, `get` reports the defaults. */
  lemma GetDefaults()
    ensures Get(map[], "minPeers") == Num(3)
    ensures Get(map[], "maxPeers") == Num(12)
    ensures Get(map[], "seeds") == StrArray([])
  {
  }
}
