/**
  A PHP array with string keys: a map that remembers the order in which its keys
  were first written. Writing an existing key replaces its value and keeps its
  position; writing a new key appends it. Iterating the array, or taking
  `array_values` of it, visits the values in key order.
 */
module OrderedMaps {

  datatype OrderedMap<V> = OrderedMap(keys: seq<string>, vals: map<string, V>)

  ghost predicate Distinct(s: seq<string>) {
    forall i, j :: 0 <= i < j < |s| ==> s[i] != s[j]
  }

  /** `keys` lists every key of `vals` exactly once. */
  ghost predicate Valid<V>(m: OrderedMap<V>) {
    && Distinct(m.keys)
    && (forall k :: k in m.keys ==> k in m.vals)
    && (forall k :: k in m.vals ==> k in m.keys)
  }

  /** The empty array `[]`. */
  function Empty<V>(): (r: OrderedMap<V>)
    ensures Valid(r)
    ensures |r.keys| == 0 && r.vals.Keys == {}
  {
    OrderedMap([], map[])
  }

  /** The assignment `$m[$k] = $v`. */
  function Put<V>(m: OrderedMap<V>, k: string, v: V): (r: OrderedMap<V>)
    ensures Valid(m) ==> Valid(r)
    ensures r.vals == m.vals[k := v]
    ensures k in m.vals ==> r.keys == m.keys
    ensures k !in m.vals ==> r.keys == m.keys + [k]
  {
    if k in m.vals then m.(vals := m.vals[k := v])
    else OrderedMap(m.keys + [k], m.vals[k := v])
  }

  /** `array_values($m)`: the stored values, in key order. */
  function Values<V>(m: OrderedMap<V>): (r: seq<V>)
    requires Valid(m)
    ensures |r| == |m.keys|
    ensures forall i :: 0 <= i < |m.keys| ==> r[i] == m.vals[m.keys[i]]
  {
    seq(|m.keys|, i requires 0 <= i < |m.keys| => m.vals[m.keys[i]])
  }

  /** The values listed by `array_values` are exactly the values stored in the array. */
  lemma ValuesAreStored<V>(m: OrderedMap<V>)
    requires Valid(m)
    ensures forall v :: v in Values(m) <==> v in m.vals.Values
  {
    var vs := Values(m);
    forall v | v in m.vals.Values
      ensures v in vs
    {
      var k :| k in m.vals && m.vals[k] == v;
      var i :| 0 <= i < |m.keys| && m.keys[i] == k;
      assert vs[i] == v;
    }
  }
}
