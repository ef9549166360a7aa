/** A sequence of key/value entries with strictly increasing keys: the value
    model of a `std::map` keyed by the value a `shared_ptr<N>` refers to. */
module SortedMap {
  import opened Results

  datatype Entry<V> = Entry(key: int, val: V)

  predicate KeysIncreasing<V>(m: seq<Entry<V>>)
  {
    forall i, j :: 0 <= i < j < |m| ==> m[i].key < m[j].key
  }

  /** The keys in map order, as `connections()` lists them. */
  function Keys<V>(m: seq<Entry<V>>): (r: seq<int>)
    ensures |r| == |m|
    ensures forall i :: 0 <= i < |m| ==> r[i] == m[i].key
  {
    seq(|m|, i requires 0 <= i < |m| => m[i].key)
  }

  /** `std::map::find`: the value stored under `k`, if any. */
  function Get<V(==)>(m: seq<Entry<V>>, k: int): (r: Option<V>)
    ensures r.Some? ==> Entry(k, r.value) in m
    ensures r.None? ==> forall e :: e in m ==> e.key != k
  {
    if m == [] then None
    else if m[0].key == k then Some(m[0].val)
    else Get(m[1..], k)
  }

  /** In a map with increasing keys every entry after the first has a larger key. */
  lemma TailKeysAbove<V>(m: seq<Entry<V>>)
    requires KeysIncreasing(m) && m != []
    ensures forall e :: e in m[1..] ==> m[0].key < e.key
  {
    forall e | e in m[1..]
      ensures m[0].key < e.key
    {
      var i :| 0 <= i < |m[1..]| && m[1..][i] == e;
      assert m[i + 1] == e;
    }
  }

  /** With unique keys every stored entry is what `Get` finds. */
  lemma {:induction false} GetFindsEntry<V>(m: seq<Entry<V>>, e: Entry<V>)
    requires KeysIncreasing(m)
    requires e in m
    ensures Get(m, e.key) == Some(e.val)
  {
    if m[0] != e {
      assert e in m[1..];
      assert e.key != m[0].key by {
        var i :| 0 <= i < |m| && m[i] == e;
        assert i != 0;
      }
      GetFindsEntry(m[1..], e);
    }
  }

  /** Assignment through `operator[]`: stores `v` under `k`, replacing any
      earlier value for `k` and leaving every other entry in place. */
  function Put<V(==,!new)>(m: seq<Entry<V>>, k: int, v: V): (r: seq<Entry<V>>)
    requires KeysIncreasing(m)
    ensures KeysIncreasing(r)
    ensures forall e :: e in r <==> e == Entry(k, v) || (e in m && e.key != k)
  {
    if m == [] then [Entry(k, v)]
    else if k < m[0].key then
      assert forall e :: e in m ==> e.key != k;
      [Entry(k, v)] + m
    else if k == m[0].key then
      assert forall e :: e in m[1..] ==> e.key != k;
      [Entry(k, v)] + m[1..]
    else
      var rest := Put(m[1..], k, v);
      assert forall e :: e in rest ==> m[0].key < e.key;
      [m[0]] + rest
  }

  /** `std::map::erase` by key: drops the entry stored under `k`, if any. */
  function Remove<V(==,!new)>(m: seq<Entry<V>>, k: int): (r: seq<Entry<V>>)
    ensures KeysIncreasing(m) ==> KeysIncreasing(r)
    ensures forall e :: e in r <==> e in m && e.key != k
    ensures |r| <= |m|
  {
    if m == [] then []
    else
      var rest := Remove(m[1..], k);
      if m[0].key == k then rest
      else
        if KeysIncreasing(m) then
          TailKeysAbove(m);
          ConsKeysIncreasing(m[0], rest);
          [m[0]] + rest
        else [m[0]] + rest
  }

  /** A key is listed by `Keys` exactly when `Get` finds it. */
  lemma KeysMember<V>(m: seq<Entry<V>>, k: int)
    requires KeysIncreasing(m)
    ensures k in Keys(m) <==> Get(m, k).Some?
  {
    if k in Keys(m) {
      var i :| 0 <= i < |m| && Keys(m)[i] == k;
      assert m[i] in m;
      GetFindsEntry(m, m[i]);
    }
    if Get(m, k).Some? {
      var i :| 0 <= i < |m| && m[i] == Entry(k, Get(m, k).value);
      assert Keys(m)[i] == k;
    }
  }

  lemma GetPut<V(!new)>(m: seq<Entry<V>>, k: int, v: V, k': int)
    requires KeysIncreasing(m)
    ensures Get(Put(m, k, v), k') == if k' == k then Some(v) else Get(m, k')
  {
    var r := Put(m, k, v);
    if k' == k {
      GetFindsEntry(r, Entry(k, v));
    } else if Get(m, k').Some? {
      GetFindsEntry(r, Entry(k', Get(m, k').value));
    }
  }

  lemma {:induction false} GetRemove<V(!new)>(m: seq<Entry<V>>, k: int, k': int)
    ensures Get(Remove(m, k), k') == if k' == k then None else Get(m, k')
  {
    if m != [] {
      GetRemove(m[1..], k, k');
    }
  }

  lemma ConsKeysIncreasing<V>(e: Entry<V>, rest: seq<Entry<V>>)
    requires KeysIncreasing(rest)
    requires forall x :: x in rest ==> e.key < x.key
    ensures KeysIncreasing([e] + rest)
  {
    forall i, j | 0 <= i < j < |[e] + rest|
      ensures ([e] + rest)[i].key < ([e] + rest)[j].key
    {
      if i == 0 {
        assert rest[j - 1] in rest;
      }
    }
  }

  /** Node-handle re-keying (`extract`, assign the key, `insert`): the value
      stored under `from` moves to key `to`. */
  function RelabelKey<V(==,!new)>(m: seq<Entry<V>>, from: int, to: int): (r: seq<Entry<V>>)
    requires KeysIncreasing(m)
    ensures KeysIncreasing(r)
    ensures forall e :: e in r ==> e in m || (e.key == to && Entry(from, e.val) in m)
    ensures |m| > 0 ==> |r| > 0
    ensures Get(m, to).None? ==>
      forall k :: Get(r, k) == (if k == from then None else if k == to then Get(m, from) else Get(m, k))
  {
    match Get(m, from)
    case None => m
    case Some(v) =>
      var r := Put(Remove(m, from), to, v);
      assert Entry(to, v) in r;
      forall k
        ensures Get(m, to).None? ==>
          Get(r, k) == (if k == from then None else if k == to then Some(v) else Get(m, k))
      {
        GetPut(Remove(m, from), to, v, k);
        GetRemove(m, from, k);
      }
      r
  }

  lemma GetRelabelKey<V(!new)>(m: seq<Entry<V>>, from: int, to: int, k: int)
    requires KeysIncreasing(m)
    requires Get(m, to).None?
    ensures Get(RelabelKey(m, from, to), k) ==
      if k == from then None else if k == to then Get(m, from) else Get(m, k)
  {
    if Get(m, from).Some? {
      GetPut(Remove(m, from), to, Get(m, from).value, k);
      GetRemove(m, from, k);
    }
  }
}
