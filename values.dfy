/** PHP values and the few array functions the translation engine relies on. */
module Values {

  datatype Option<T> = None | Some(value: T)

  /** A PHP scalar, as far as attribute and translation values need one. */
  datatype Value = Null | Bool(b: bool) | Int(i: int) | Str(s: string)

  /** PHP's loose falsiness, as used by `array_filter` without a callback and by `?:`. */
  predicate Falsy(v: Value) {
    match v
    case Null => true
    case Bool(b) => !b
    case Int(i) => i == 0
    case Str(s) => s == "" || s == "0"
  }

  /** `array_filter($m)`: keeps exactly the entries whose value is not falsy. */
  function ArrayFilter<K(!new)>(m: map<K, Value>): (r: map<K, Value>)
    ensures forall k :: k in r <==> k in m && !Falsy(m[k])
    ensures forall k :: k in r ==> r[k] == m[k]
  {
    map k | k in m && !Falsy(m[k]) :: m[k]
  }

  /** `array_merge($base, $over)` on string keys: every key of either, `$over` winning. */
  function ArrayMerge<K(!new)>(base: map<K, Value>, over: map<K, Value>): (r: map<K, Value>)
    ensures r.Keys == base.Keys + over.Keys
    ensures forall k :: k in over ==> r[k] == over[k]
    ensures forall k :: k in base && k !in over ==> r[k] == base[k]
  {
    base + over
  }

  /** The `(key, value)` pairs of a PHP array, each key once. */
  ghost predicate Enumerates<K, V>(entries: seq<(K, V)>, m: map<K, V>) {
    && (forall i :: 0 <= i < |entries| ==> entries[i].0 in m && m[entries[i].0] == entries[i].1)
    && (forall k :: k in m ==> exists i :: 0 <= i < |entries| && entries[i].0 == k)
    && (forall i, j :: 0 <= i < j < |entries| ==> entries[i].0 != entries[j].0)
  }

  /** `foreach ($m as $k => $v)`: lists the entries of a map, in some order. */
  method Entries<K, V>(m: map<K, V>) returns (entries: seq<(K, V)>)
    ensures Enumerates(entries, m)
  {
    var rest := m.Keys;
    entries := [];
    while rest != {}
      invariant rest <= m.Keys
      invariant forall i :: 0 <= i < |entries| ==> entries[i].0 in m && entries[i].0 !in rest && m[entries[i].0] == entries[i].1
      invariant forall k :: k in m && k !in rest ==> exists i :: 0 <= i < |entries| && entries[i].0 == k
      invariant forall i, j :: 0 <= i < j < |entries| ==> entries[i].0 != entries[j].0
      decreases rest
    {
      var k :| k in rest;
      ghost var before := entries;
      entries := entries + [(k, m[k])];
      rest := rest - {k};
      forall k' | k' in m && k' !in rest
        ensures exists i :: 0 <= i < |entries| && entries[i].0 == k'
      {
        if k' == k {
          assert entries[|before|].0 == k';
        } else {
          var i :| 0 <= i < |before| && before[i].0 == k';
          assert entries[i].0 == k';
        }
      }
    }
  }
}
