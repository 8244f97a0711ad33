/**
  The ECMAScript `Map` the client keeps its token tables in: entries in
  insertion order, `set` overwriting an existing key in place and
  appending a new one, `new Map(entries)` inserting the entries one after
  another, so that of a repeated key the last value is kept.
 */
module JsMap {

  datatype Option<T> = None | Some(value: T)

  /** The keys of an entry list, in order. */
  function Keys<K, V>(m: seq<(K, V)>): (ks: seq<K>)
    ensures |ks| == |m|
  {
    if |m| == 0 then [] else [m[0].0] + Keys(m[1..])
  }

  /** The `i`-th key is the key of the `i`-th entry. */
  lemma {:induction false} KeysAt<K, V>(m: seq<(K, V)>, i: nat)
    requires i < |m|
    ensures Keys(m)[i] == m[i].0
  {
    if i > 0 {
      KeysAt(m[1..], i - 1);
    }
  }

  /** A key is listed exactly when some entry carries it. */
  lemma InKeys<K, V>(m: seq<(K, V)>, k: K)
    ensures k in Keys(m) <==> exists i :: 0 <= i < |m| && m[i].0 == k
  {
    if k in Keys(m) {
      var i :| 0 <= i < |m| && Keys(m)[i] == k;
      KeysAt(m, i);
    }
    if i :| 0 <= i < |m| && m[i].0 == k {
      KeysAt(m, i);
    }
  }

  /** No key occurs twice: true of every `Map`'s entries. */
  ghost predicate KeysDistinct<K, V>(m: seq<(K, V)>) {
    forall i, j :: 0 <= i < j < |m| ==> m[i].0 != m[j].0
  }

  /** `m.get(k)`: the value stored under `k`, or `None` for `undefined`. */
  function Get<K(==), V>(m: seq<(K, V)>, k: K): (r: Option<V>)
    ensures r.None? <==> k !in Keys(m)
  {
    if |m| == 0 then None
    else if m[0].0 == k then Some(m[0].1)
    else Get(m[1..], k)
  }

  /** `m.set(k, v)`: the entry for `k` is overwritten where it stands, or
      appended when `k` is new. */
  function Set<K(==), V>(m: seq<(K, V)>, k: K, v: V): (r: seq<(K, V)>)
    ensures Get(r, k) == Some(v)
    ensures |r| == if k in Keys(m) then |m| else |m| + 1
  {
    if |m| == 0 then [(k, v)]
    else if m[0].0 == k then [(k, v)] + m[1..]
    else [m[0]] + Set(m[1..], k, v)
  }

  /** `set` changes no other key. */
  lemma {:induction false} SetOther<K, V>(m: seq<(K, V)>, k: K, v: V, k': K)
    requires k' != k
    ensures Get(Set(m, k, v), k') == Get(m, k')
  {
    if |m| > 0 && m[0].0 != k {
      SetOther(m[1..], k, v, k');
    }
  }

  /** `set` keeps a present key in its place and appends a new one. */
  lemma {:induction false} SetKeys<K, V>(m: seq<(K, V)>, k: K, v: V)
    ensures Keys(Set(m, k, v)) == if k in Keys(m) then Keys(m) else Keys(m) + [k]
  {
    if |m| > 0 && m[0].0 != k {
      SetKeys(m[1..], k, v);
      assert k in Keys(m) <==> k in Keys(m[1..]);
    }
  }

  /** `set` keeps the keys distinct. */
  lemma {:induction false} SetKeysDistinct<K, V>(m: seq<(K, V)>, k: K, v: V)
    requires KeysDistinct(m)
    ensures KeysDistinct(Set(m, k, v))
  {
    var r := Set(m, k, v);
    if |m| > 0 && m[0].0 != k {
      var rest := Set(m[1..], k, v);
      SetKeysDistinct(m[1..], k, v);
      SetKeys(m[1..], k, v);
      assert r == [m[0]] + rest;
      InKeys(m[1..], m[0].0);
      assert m[0].0 !in Keys(m[1..]);
      assert m[0].0 !in Keys(rest);
      forall i, j | 0 <= i < j < |r| ensures r[i].0 != r[j].0 {
        if i == 0 {
          KeysAt(rest, j - 1);
        } else {
          assert r[i] == rest[i - 1] && r[j] == rest[j - 1];
        }
      }
    }
  }

  /** `new Map(entries)`: the entries set one after another. */
  function FromEntries<K(==), V>(es: seq<(K, V)>): (m: seq<(K, V)>)
    ensures KeysDistinct(m)
  {
    if |es| == 0 then []
    else
      var prev := FromEntries(es[..|es| - 1]);
      SetKeysDistinct(prev, es[|es| - 1].0, es[|es| - 1].1);
      Set(prev, es[|es| - 1].0, es[|es| - 1].1)
  }

  /** Reference reading of an entry list: the value of the last entry
      with key `k`. */
  function LastValue<K(==), V>(es: seq<(K, V)>, k: K): Option<V> {
    if |es| == 0 then None
    else if es[|es| - 1].0 == k then Some(es[|es| - 1].1)
    else LastValue(es[..|es| - 1], k)
  }

  /** Looking a key up in `new Map(entries)` finds the value of the last
      entry for that key: later duplicates win. */
  lemma {:induction false} FromEntriesGet<K, V>(es: seq<(K, V)>, k: K)
    ensures Get(FromEntries(es), k) == LastValue(es, k)
  {
    if |es| > 0 {
      var init, last := es[..|es| - 1], es[|es| - 1];
      FromEntriesGet(init, k);
      if last.0 != k {
        SetOther(FromEntries(init), last.0, last.1, k);
      }
    }
  }

  /** With no repeated key, `new Map(entries)` holds exactly the entries,
      in their order. */
  lemma {:induction false} FromEntriesDistinct<K, V>(es: seq<(K, V)>)
    requires KeysDistinct(es)
    ensures FromEntries(es) == es
  {
    if |es| > 0 {
      var init, last := es[..|es| - 1], es[|es| - 1];
      assert KeysDistinct(init);
      FromEntriesDistinct(init);
      InKeys(init, last.0);
      assert last.0 !in Keys(init);
      SetNewKey(init, last.0, last.1);
      assert es == init + [last];
    }
  }

  /** Setting a new key appends its entry. */
  lemma {:induction false} SetNewKey<K, V>(m: seq<(K, V)>, k: K, v: V)
    requires k !in Keys(m)
    ensures Set(m, k, v) == m + [(k, v)]
  {
    if |m| > 0 {
      assert Keys(m)[0] == m[0].0;
      assert Keys(m[1..]) == Keys(m)[1..];
      SetNewKey(m[1..], k, v);
      calc {
        Set(m, k, v);
        [m[0]] + Set(m[1..], k, v);
        [m[0]] + (m[1..] + [(k, v)]);
        { assert m == [m[0]] + m[1..]; }
        m + [(k, v)];
      }
    }
  }
}
