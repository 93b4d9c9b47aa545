/**
 * Python's `dict` as the core uses it: an association list whose keys are
 * unique and whose entries keep the order in which their keys were first
 * inserted. Assigning to an existing key replaces the value in place.
 *
 * `Get` and `Put` are defined by recursion on the list and carry no
 * postconditions of their own; what they mean is stated by the lemmas below,
 * which callers invoke where they need them.
 */
module Dict {
  import opened Wrappers

  type Dict<K, V> = seq<(K, V)>

  /** The keys in insertion order. */
  function Keys<K, V>(d: Dict<K, V>): (ks: seq<K>)
    ensures |ks| == |d|
    ensures forall i :: 0 <= i < |d| ==> ks[i] == d[i].0
  {
    if d == [] then [] else [d[0].0] + Keys(d[1..])
  }

  ghost predicate KeysUnique<K, V>(d: Dict<K, V>)
  {
    forall i, j :: 0 <= i < j < |d| ==> d[i].0 != d[j].0
  }

  /** `d.get(k)`: the value stored under `k`, if any. */
  function Get<K(==), V>(d: Dict<K, V>, k: K): Option<V>
  {
    if d == [] then None
    else if d[0].0 == k then Some(d[0].1)
    else Get(d[1..], k)
  }

  /** `d.get(k, otherwise)` */
  function GetOr<K(==), V>(d: Dict<K, V>, k: K, otherwise: V): V
  {
    match Get(d, k)
    case Some(v) => v
    case None => otherwise
  }

  /** `d[k] = v`: a present key keeps its position, a new key goes to the end. */
  function Put<K(==), V>(d: Dict<K, V>, k: K, v: V): Dict<K, V>
  {
    if d == [] then [(k, v)]
    else if d[0].0 == k then [(k, v)] + d[1..]
    else [d[0]] + Put(d[1..], k, v)
  }

  /** `d.get(k)` is None exactly when `k` is not among the keys. */
  lemma {:induction false} GetNone<K, V>(d: Dict<K, V>, k: K)
    ensures Get(d, k).None? <==> k !in Keys(d)
  {
    if d != [] {
      GetNone(d[1..], k);
      assert Keys(d) == [d[0].0] + Keys(d[1..]);
    }
  }

  /** With unique keys, `d.get(k)` is the value of the entry that carries `k`. */
  lemma {:induction false} GetUnique<K, V>(d: Dict<K, V>, i: int)
    requires KeysUnique(d) && 0 <= i < |d|
    ensures Get(d, d[i].0) == Some(d[i].1)
  {
    if i > 0 {
      assert d[0].0 != d[i].0;
      assert d[1..][i - 1] == d[i];
      GetUnique(d[1..], i - 1);
    }
  }

  /** After `d[k] = v`, `d.get(k)` is `v`. */
  lemma {:induction false} PutGet<K, V>(d: Dict<K, V>, k: K, v: V)
    ensures Get(Put(d, k, v), k) == Some(v)
  {
    if d != [] && d[0].0 != k {
      var rest := Put(d[1..], k, v);
      assert ([d[0]] + rest)[1..] == rest;
      PutGet(d[1..], k, v);
    }
  }

  /** `d[k] = v` leaves every other key's value alone. */
  lemma {:induction false} PutGetOther<K, V>(d: Dict<K, V>, k: K, v: V, other: K)
    requires other != k
    ensures Get(Put(d, k, v), other) == Get(d, other)
  {
    if d == [] {
      assert [(k, v)][1..] == [];
    } else if d[0].0 == k {
      assert ([(k, v)] + d[1..])[1..] == d[1..];
    } else {
      var rest := Put(d[1..], k, v);
      assert ([d[0]] + rest)[1..] == rest;
      PutGetOther(d[1..], k, v, other);
    }
  }

  /** `d[k] = v` keeps the key list, or appends `k` when it was absent. */
  lemma {:induction false} PutKeys<K, V>(d: Dict<K, V>, k: K, v: V)
    ensures Keys(Put(d, k, v)) == if k in Keys(d) then Keys(d) else Keys(d) + [k]
  {
    if d == [] {
      assert Keys([(k, v)]) == [k];
    } else if d[0].0 == k {
      var r := [(k, v)] + d[1..];
      assert r[1..] == d[1..];
      assert Keys(r) == [k] + Keys(d[1..]);
      assert Keys(d) == [k] + Keys(d[1..]);
    } else {
      var rest := Put(d[1..], k, v);
      var r := [d[0]] + rest;
      assert r[1..] == rest;
      PutKeys(d[1..], k, v);
      assert Keys(r) == [d[0].0] + Keys(rest);
      assert Keys(d) == [d[0].0] + Keys(d[1..]);
      assert k in Keys(d) <==> k in Keys(d[1..]);
    }
  }

  /** `d[k] = v` keeps the keys unique. */
  lemma PutUnique<K, V>(d: Dict<K, V>, k: K, v: V)
    requires KeysUnique(d)
    ensures KeysUnique(Put(d, k, v))
  {
    var r := Put(d, k, v);
    PutKeys(d, k, v);
    var ks, rs := Keys(d), Keys(r);
    forall i, j | 0 <= i < j < |r|
      ensures r[i].0 != r[j].0
    {
      assert rs[i] == r[i].0 && rs[j] == r[j].0;
      if j < |d| {
        assert rs[i] == ks[i] && rs[j] == ks[j];
      } else {
        assert k !in ks && rs[j] == k && rs[i] == ks[i];
      }
    }
  }

  /** `d[k] = v` never reorders or drops the keys already present. */
  lemma PutExtendsKeys<K, V>(d: Dict<K, V>, k: K, v: V)
    ensures Keys(d) <= Keys(Put(d, k, v))
  {
    PutKeys(d, k, v);
  }

  /** Assigning the same key twice leaves what assigning the second value once leaves. */
  lemma {:induction false} PutPut<K, V>(d: Dict<K, V>, k: K, v: V, w: V)
    ensures Put(Put(d, k, v), k, w) == Put(d, k, w)
  {
    if d == [] {
      assert [(k, v)][1..] == [];
    } else if d[0].0 == k {
      assert ([(k, v)] + d[1..])[1..] == d[1..];
    } else {
      var rest := Put(d[1..], k, v);
      var r := [d[0]] + rest;
      assert r[1..] == rest;
      PutPut(d[1..], k, v, w);
    }
  }

  /** The sum of the values. */
  function ValueSum<K>(d: Dict<K, int>): int
  {
    if d == [] then 0 else d[0].1 + ValueSum(d[1..])
  }

  /** `d[k] = v` changes the sum of the values by `v` minus the value `k` had (0 when absent). */
  lemma {:induction false} PutValueSum<K>(d: Dict<K, int>, k: K, v: int)
    ensures ValueSum(Put(d, k, v)) == ValueSum(d) - GetOr(d, k, 0) + v
  {
    if d == [] {
      assert [(k, v)][1..] == [];
    } else if d[0].0 == k {
      assert ([(k, v)] + d[1..])[1..] == d[1..];
    } else {
      var rest := Put(d[1..], k, v);
      var r := [d[0]] + rest;
      assert r[1..] == rest;
      PutValueSum(d[1..], k, v);
    }
  }

  // Solver aid: congruence of `Put` in the written value.
  lemma PutSameValue<K, V>(d: Dict<K, V>, k: K, a: V, b: V)
    requires a == b
    ensures Put(d, k, a) == Put(d, k, b)
  {
  }

  /** `if k not in d: d[k] = 0` followed by `d[k] += n` is `d[k] = d.get(k, 0) + n`. */
  lemma InsertThenAdd<K>(d: Dict<K, int>, k: K, n: int, d1: Dict<K, int>)
    requires d1 == if Get(d, k).None? then Put(d, k, 0) else d
    ensures Get(d1, k).Some?
    ensures Put(d1, k, Get(d1, k).value + n) == Put(d, k, GetOr(d, k, 0) + n)
  {
    if Get(d, k).None? {
      PutGet(d, k, 0);
    }
    var v := Get(d1, k).value;
    if Get(d, k).None? {
      assert v == 0 && GetOr(d, k, 0) == 0;
      PutPut(d, k, 0, n);
      PutSameValue(d1, k, v + n, n);
      PutSameValue(d, k, n, GetOr(d, k, 0) + n);
    } else {
      assert v == GetOr(d, k, 0);
      PutSameValue(d, k, v + n, GetOr(d, k, 0) + n);
    }
  }
}
