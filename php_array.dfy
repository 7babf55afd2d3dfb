/**
 * The few PHP value semantics the plugin's logic depends on: `empty()` on
 * strings, optional values (`null`), and ordered arrays (a list of key/value
 * pairs that keeps insertion order, with `$a[$k] = $v` replacing in place
 * and `unset($a[$k])` deleting one pair).
 */
module PhpArray {

  datatype Option<+T> = None | Some(value: T)

  /** PHP's `empty()` on a string: the empty string and "0" are empty. */
  predicate PhpEmpty(s: string) {
    s == "" || s == "0"
  }

  /** An ordered PHP array. */
  type Arr<K, V> = seq<(K, V)>

  function Keys<K, V>(a: Arr<K, V>): set<K> {
    set i | 0 <= i < |a| :: a[i].0
  }

  predicate HasKey<K(==), V>(a: Arr<K, V>, k: K) {
    exists i :: 0 <= i < |a| && a[i].0 == k
  }

  ghost predicate DistinctKeys<K, V>(a: Arr<K, V>) {
    forall i, j :: 0 <= i < j < |a| ==> a[i].0 != a[j].0
  }

  /** `$a[$k] ?? $default` */
  function GetOr<K(==), V>(a: Arr<K, V>, k: K, default: V): (v: V)
    ensures !HasKey(a, k) ==> v == default
    ensures HasKey(a, k) ==> exists i :: 0 <= i < |a| && a[i] == (k, v)
  {
    if |a| == 0 then default
    else if a[0].0 == k then a[0].1
    else (assert forall i :: 1 <= i < |a| ==> a[i] == a[1..][i - 1]; GetOr(a[1..], k, default))
  }

  /** `$a[$k] = $v`: replaces the value of an existing key in place, appends otherwise. */
  function Put<K(==), V>(a: Arr<K, V>, k: K, v: V): (r: Arr<K, V>)
    ensures Keys(r) == Keys(a) + {k}
    ensures forall i :: 0 <= i < |r| ==> r[i] == (k, v) || r[i] in a
  {
    if |a| == 0 then KeysCons((k, v), []); [(k, v)]
    else
      assert a == [a[0]] + a[1..];
      KeysCons(a[0], a[1..]);
      if a[0].0 == k then
        KeysCons((k, v), a[1..]);
        [(k, v)] + a[1..]
      else
        var rest := Put(a[1..], k, v);
        KeysCons(a[0], rest);
        [a[0]] + rest
  }

  lemma {:induction false} PutPreservesDistinct<K, V>(a: Arr<K, V>, k: K, v: V)
    requires DistinctKeys(a)
    ensures DistinctKeys(Put(a, k, v))
  {
    if |a| > 0 && a[0].0 != k {
      assert a == [a[0]] + a[1..];
      KeysCons(a[0], a[1..]);
      PutPreservesDistinct(a[1..], k, v);
      var rest := Put(a[1..], k, v);
      assert a[0].0 !in Keys(rest);
      forall i, j | 0 <= i < j < |[a[0]] + rest| ensures ([a[0]] + rest)[i].0 != ([a[0]] + rest)[j].0 {
        if i == 0 { assert ([a[0]] + rest)[j].0 == rest[j - 1].0; assert rest[j - 1].0 in Keys(rest); }
      }
    } else if |a| > 0 {
      assert a[1..] == a[1..];
      forall i, j | 0 <= i < j < |a| ensures Put(a, k, v)[i].0 != Put(a, k, v)[j].0 {
        assert Put(a, k, v)[j] == a[j];
        if i > 0 { assert Put(a, k, v)[i] == a[i]; }
      }
    }
  }

  lemma KeysCons<K, V>(x: (K, V), a: Arr<K, V>)
    ensures Keys([x] + a) == {x.0} + Keys(a)
  {
    var b := [x] + a;
    forall y | y in Keys(b) ensures y in {x.0} + Keys(a) {
      var i :| 0 <= i < |b| && b[i].0 == y;
      if i > 0 { assert a[i - 1].0 == y; }
    }
    forall y | y in Keys(a) ensures y in Keys(b) {
      var i :| 0 <= i < |a| && a[i].0 == y;
      assert b[i + 1].0 == y;
    }
    assert b[0].0 == x.0;
  }

  /** `unset($a[$key])` for the key at position `i`. */
  function RemoveAt<K, V>(a: Arr<K, V>, i: nat): (r: Arr<K, V>)
    requires i < |a|
    ensures |r| == |a| - 1
    ensures forall j :: 0 <= j < i ==> r[j] == a[j]
    ensures forall j :: i <= j < |r| ==> r[j] == a[j + 1]
  {
    a[..i] + a[i + 1..]
  }

  /** `array_keys($a)`, in iteration order. */
  function ArrayKeys<K, V>(a: Arr<K, V>): seq<K> {
    seq(|a|, i requires 0 <= i < |a| => a[i].0)
  }

  /** Assigning a key not yet present appends the pair. */
  lemma {:induction false} PutFresh<K, V>(a: Arr<K, V>, k: K, v: V)
    requires k !in Keys(a)
    ensures Put(a, k, v) == a + [(k, v)]
  {
    if |a| > 0 {
      assert a == [a[0]] + a[1..];
      KeysCons(a[0], a[1..]);
      PutFresh(a[1..], k, v);
    }
  }

  /** With distinct keys, reading the key stored at position `i` yields that position's value. */
  lemma {:induction false} GetOrAt<K, V>(a: Arr<K, V>, i: nat, default: V)
    requires DistinctKeys(a) && i < |a|
    ensures GetOr(a, a[i].0, default) == a[i].1
  {
    if i > 0 {
      assert a[0].0 != a[i].0;
      assert DistinctKeys(a[1..]) by {
        forall x, y | 0 <= x < y < |a[1..]| ensures a[1..][x].0 != a[1..][y].0 {
          assert a[1..][x] == a[x + 1] && a[1..][y] == a[y + 1];
        }
      }
      GetOrAt(a[1..], i - 1, default);
    }
  }

  lemma RemoveAtDistinct<K, V>(a: Arr<K, V>, i: nat)
    requires DistinctKeys(a) && i < |a|
    ensures DistinctKeys(RemoveAt(a, i))
    ensures Keys(RemoveAt(a, i)) == Keys(a) - {a[i].0}
  {
    var r := RemoveAt(a, i);
    forall x, y | 0 <= x < y < |r| ensures r[x].0 != r[y].0 {
      var x' := if x < i then x else x + 1;
      var y' := if y < i then y else y + 1;
      assert r[x] == a[x'] && r[y] == a[y'];
    }
    forall k | k in Keys(r) ensures k in Keys(a) - {a[i].0} {
      var x :| 0 <= x < |r| && r[x].0 == k;
      var x' := if x < i then x else x + 1;
      assert r[x] == a[x'];
    }
    forall k | k in Keys(a) - {a[i].0} ensures k in Keys(r) {
      var x :| 0 <= x < |a| && a[x].0 == k;
      if x < i { assert r[x] == a[x]; } else { assert r[x - 1] == a[x]; }
    }
  }

  /** `get_option($key, $default)` over a store of option values. */
  function GetOption<V>(store: map<string, V>, key: string, default: V): V {
    if key in store then store[key] else default
  }

  /** A stored settings option: id => flag. */
  type Settings = Arr<string, bool>
}
