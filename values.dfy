/** The values the backend and the front end pass around in dictionaries (what becomes
    JSON), Python's truth test on them, and dictionaries as ordered lists of entries,
    which is how Python 3 keeps them. */
module Values {
  import opened Prelude

  datatype Value =
    | Null                                  // None
    | Bool(b: bool)
    | Int(i: int)
    | Str(s: string)
    | List(items: seq<Value>)
    | Dict(entries: seq<(string, Value)>)
    | Opaque(tag: string)                   // an object the model does not look into

  /** `bool(v)`. */
  predicate Truthy(v: Value)
  {
    match v
    case Null => false
    case Bool(b) => b
    case Int(i) => i != 0
    case Str(s) => s != ""
    case List(xs) => xs != []
    case Dict(es) => es != []
    case Opaque(_) => true
  }

  /** A dict: its entries in insertion order. */
  type Entries = seq<(string, Value)>

  function Keys(d: Entries): (r: seq<string>)
    ensures |r| == |d|
    ensures forall k :: 0 <= k < |d| ==> r[k] == d[k].0
  {
    seq(|d|, k requires 0 <= k < |d| => d[k].0)
  }

  predicate DistinctKeys(d: Entries)
  {
    forall a, b :: 0 <= a < b < |d| ==> d[a].0 != d[b].0
  }

  /** `d.get(key)`, with None for a missing key. */
  function Get(d: Entries, key: string): (r: Option<Value>)
    ensures r.None? <==> key !in Keys(d)
    decreases |d|
  {
    if d == [] then None
    else if d[0].0 == key then Some(d[0].1)
    else
      assert Keys(d) == [d[0].0] + Keys(d[1..]);
      Get(d[1..], key)
  }

  /** In a dict whose keys are distinct, reading a key gives the value of its entry. */
  lemma {:induction false} GetEntry(d: Entries, k: nat)
    requires DistinctKeys(d) && k < |d|
    ensures Get(d, d[k].0) == Some(d[k].1)
    decreases k
  {
    if k > 0 {
      assert d[0].0 != d[k].0;
      assert d[1..][k - 1] == d[k];
      GetEntry(d[1..], k - 1);
    }
  }

  /** `d[key] = v`: an existing key keeps its place and takes the new value, a new key
      goes at the end. */
  function Set(d: Entries, key: string, v: Value): Entries
    decreases |d|
  {
    if d == [] then [(key, v)]
    else if d[0].0 == key then [(key, v)] + d[1..]
    else [d[0]] + Set(d[1..], key, v)
  }

  /** After `d[key] = v`, `key` reads `v` and every other key reads what it read before;
      the keys keep their order, with `key` added at the end when it is new, so the
      keys stay distinct. */
  lemma SetSpec(d: Entries, key: string, v: Value)
    requires DistinctKeys(d)
    ensures DistinctKeys(Set(d, key, v))
    ensures Get(Set(d, key, v), key) == Some(v)
    ensures forall k :: k != key ==> Get(Set(d, key, v), k) == Get(d, k)
    ensures key in Keys(d) ==> Keys(Set(d, key, v)) == Keys(d)
    ensures key !in Keys(d) ==> Keys(Set(d, key, v)) == Keys(d) + [key]
  {
    SetKeys(d, key, v);
    forall k ensures Get(Set(d, key, v), k) == if k == key then Some(v) else Get(d, k) {
      SetGet(d, key, v, k);
    }
    var r := Set(d, key, v);
    forall a, b | 0 <= a < b < |r| ensures r[a].0 != r[b].0 {
      assert r[a].0 == Keys(r)[a] && r[b].0 == Keys(r)[b];
      if b < |d| {
        assert Keys(d)[a] == d[a].0 && Keys(d)[b] == d[b].0;
      }
    }
  }

  lemma {:induction false} SetKeys(d: Entries, key: string, v: Value)
    ensures Keys(Set(d, key, v)) == if key in Keys(d) then Keys(d) else Keys(d) + [key]
    decreases |d|
  {
    if d != [] {
      var r := Set(d, key, v);
      KeysCons(d);
      KeysCons(r);
      if d[0].0 == key {
        assert r[1..] == d[1..];
      } else {
        SetKeys(d[1..], key, v);
        assert r[1..] == Set(d[1..], key, v);
        assert key in Keys(d) <==> key in Keys(d[1..]);
        if key !in Keys(d[1..]) {
          assert [d[0].0] + (Keys(d[1..]) + [key]) == [d[0].0] + Keys(d[1..]) + [key];
        }
      }
    }
  }

  /** Assigning a new key appends its entry. */
  lemma {:induction false} SetAppends(d: Entries, key: string, v: Value)
    requires key !in Keys(d)
    ensures Set(d, key, v) == d + [(key, v)]
    ensures Keys(d + [(key, v)]) == Keys(d) + [key]
    decreases |d|
  {
    if d != [] {
      KeysCons(d);
      SetAppends(d[1..], key, v);
      assert d == [d[0]] + d[1..];
    }
  }

  /** Three assignments of new keys, and a fourth one when `cond` holds, append those
      entries in order. */
  lemma SetChain(d: Entries, k1: string, v1: Value, k2: string, v2: Value, k3: string, v3: Value,
                 cond: bool, k4: string, v4: Value)
    requires k1 !in Keys(d) && k2 !in Keys(d) && k3 !in Keys(d) && k4 !in Keys(d)
    requires k1 != k2 && k1 != k3 && k1 != k4 && k2 != k3 && k2 != k4 && k3 != k4
    ensures (var d3 := Set(Set(Set(d, k1, v1), k2, v2), k3, v3); if cond then Set(d3, k4, v4) else d3)
      == d + ([(k1, v1), (k2, v2), (k3, v3)] + if cond then [(k4, v4)] else [])
  {
    var d1, d2, d3 := d + [(k1, v1)], d + [(k1, v1), (k2, v2)], d + [(k1, v1), (k2, v2), (k3, v3)];
    SetAppends(d, k1, v1);
    assert d1 + [(k2, v2)] == d2;
    SetAppends(d1, k2, v2);
    assert d2 + [(k3, v3)] == d3;
    SetAppends(d2, k3, v3);
    if cond {
      assert Keys(d3) == Keys(d) + [k1, k2, k3];
      SetAppends(d3, k4, v4);
      assert d3 + [(k4, v4)] == d + ([(k1, v1), (k2, v2), (k3, v3)] + [(k4, v4)]);
    } else {
      assert [(k1, v1), (k2, v2), (k3, v3)] + [] == [(k1, v1), (k2, v2), (k3, v3)];
    }
  }

  lemma KeysCons(d: Entries)
    requires d != []
    ensures Keys(d) == [d[0].0] + Keys(d[1..])
  {
  }

  lemma {:induction false} SetGet(d: Entries, key: string, v: Value, k: string)
    ensures Get(Set(d, key, v), k) == if k == key then Some(v) else Get(d, k)
    decreases |d|
  {
    if d != [] && d[0].0 != key {
      var r := Set(d, key, v);
      assert r[0] == d[0] && r[1..] == Set(d[1..], key, v);
      SetGet(d[1..], key, v, k);
    } else if d != [] {
      var r := Set(d, key, v);
      assert r[1..] == d[1..];
    }
  }

  /** The value of the last entry of `d` whose key `f` maps to `key`. */
  function LastMapped(d: Entries, f: string -> string, key: string): (r: Option<Value>)
    ensures r.None? <==> forall k :: 0 <= k < |d| ==> f(d[k].0) != key
    decreases |d|
  {
    if d == [] then None
    else if f(d[|d| - 1].0) == key then Some(d[|d| - 1].1)
    else LastMapped(d[..|d| - 1], f, key)
  }

  /** The last entry whose key maps to `key` is entry j. */
  lemma {:induction false} LastMappedAt(d: Entries, f: string -> string, key: string, j: nat)
    requires j < |d| && f(d[j].0) == key
    requires forall k :: j < k < |d| ==> f(d[k].0) != key
    ensures LastMapped(d, f, key) == Some(d[j].1)
    decreases |d|
  {
    if j < |d| - 1 {
      LastMappedAt(d[..|d| - 1], f, key, j);
    }
  }
}
