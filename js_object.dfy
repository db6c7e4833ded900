/** Reading a property of a JavaScript object literal (`table[name]`) and
    listing its keys (`Object.keys(table)`). An object literal is its own
    properties in insertion order. */
module JsObject {
  import opened Wrappers

  /** `Object.keys(entries)`: the property names, in insertion order. */
  function Keys<V>(entries: seq<(string, V)>): (keys: seq<string>)
    ensures |keys| == |entries|
    ensures forall i :: 0 <= i < |entries| ==> keys[i] == entries[i].0
    decreases |entries|
  {
    if entries == [] then [] else [entries[0].0] + Keys(entries[1..])
  }

  predicate DistinctKeys<V>(entries: seq<(string, V)>) {
    forall i, j :: 0 <= i < j < |entries| ==> entries[i].0 != entries[j].0
  }

  /** The value of an own property, or `None` when the object has no own
      property of that name. */
  function Get<V>(entries: seq<(string, V)>, key: string): (r: Option<V>)
    ensures r.Some? <==> key in Keys(entries)
    ensures r.Some? ==> (key, r.value) in entries
    decreases |entries|
  {
    if entries == [] then None
    else if entries[0].0 == key then Some(entries[0].1)
    else Get(entries[1..], key)
  }

  /** With distinct names, every own property is found under its name. */
  lemma {:induction false} GetOwnProperty<V>(entries: seq<(string, V)>, i: int)
    requires DistinctKeys(entries) && 0 <= i < |entries|
    ensures Get(entries, entries[i].0) == Some(entries[i].1)
    decreases |entries|
  {
    if i > 0 {
      assert DistinctKeys(entries[1..]);
      GetOwnProperty(entries[1..], i - 1);
    }
  }

  /** The property names every object literal inherits from
      `Object.prototype`; `table[name]` finds them too, and each of them is a
      truthy value (a function, or the prototype object for `__proto__`). */
  const ObjectPrototypeNames: seq<string> := [
    "constructor", "__defineGetter__", "__defineSetter__", "hasOwnProperty",
    "__lookupGetter__", "__lookupSetter__", "isPrototypeOf",
    "propertyIsEnumerable", "toString", "valueOf", "__proto__", "toLocaleString"
  ]

  /** What `table[name]` yields as the language defines it. */
  datatype Property<V> = Own(value: V) | Inherited | Absent

  function GetProperty<V>(entries: seq<(string, V)>, key: string): (p: Property<V>)
    ensures p.Own? <==> key in Keys(entries)
    ensures p.Absent? <==> key !in Keys(entries) && key !in ObjectPrototypeNames
  {
    match Get(entries, key)
    case Some(v) => Own(v)
    case None => if key in ObjectPrototypeNames then Inherited else Absent
  }
}
