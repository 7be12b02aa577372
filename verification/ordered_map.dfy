/**
 * A JavaScript `Map<string, V>`: the registries iterate their `Map` with
 * `entries()`, whose order is insertion order, so the model keeps the
 * entries as a sequence.  `set` on an existing key replaces the value in
 * place; `set` on a new key appends; `delete` drops the entry.
 */
module OrderedMap {
  import opened Maybe
  import opened Sequences

  datatype Entry<V> = Entry(key: string, value: V)

  /** The entries in insertion order. */
  type Table<V> = seq<Entry<V>>

  /** No key is stored twice; every table built by `Set` and `Delete` from `[]` has this property. */
  predicate UniqueKeys<V>(m: Table<V>) {
    forall i, j :: 0 <= i < j < |m| ==> m[i].key != m[j].key
  }

  /** The position of the entry for `k`, if any (the first one, should keys repeat). */
  function IndexOf<V>(m: Table<V>, k: string): (r: Option<nat>)
    ensures r.Some? ==> r.value < |m| && m[r.value].key == k
    ensures r.Some? ==> forall j :: 0 <= j < r.value ==> m[j].key != k
    ensures r.None? ==> forall j :: 0 <= j < |m| ==> m[j].key != k
  {
    if m == [] then None
    else if m[0].key == k then Some(0)
    else match IndexOf(m[1..], k)
      case None => None
      case Some(i) => Some(i + 1)
  }

  /** The contract of `IndexOf` pins its result down: the first position holding `k`, or none. */
  lemma IndexOfUnique<V>(m: Table<V>, k: string, r: Option<nat>)
    requires r.Some? ==> r.value < |m| && m[r.value].key == k
    requires r.Some? ==> forall j :: 0 <= j < r.value ==> m[j].key != k
    requires r.None? ==> forall j :: 0 <= j < |m| ==> m[j].key != k
    ensures IndexOf(m, k) == r
  {
  }

  /** Writing entry `i` (or appending, `i == |m|`) with key `k` leaves the position of every other key where it was. */
  lemma IndexOfOtherKeys<V>(m: Table<V>, r: Table<V>, i: nat, k: string)
    requires i <= |m| && |r| == (if i == |m| then |m| + 1 else |m|)
    requires i < |r| && r[i].key == k
    requires i < |m| ==> m[i].key == k
    requires forall j :: 0 <= j < |m| && j != i ==> r[j] == m[j]
    ensures forall k' :: k' != k ==> IndexOf(r, k') == IndexOf(m, k')
    ensures forall k' :: k' != k ==> Get(r, k') == Get(m, k')
  {
    forall k' | k' != k
      ensures IndexOf(r, k') == IndexOf(m, k')
      ensures Get(r, k') == Get(m, k')
    {
      var x := IndexOf(m, k');
      IndexOfUnique(r, k', x);
      if x.Some? {
        assert r[x.value] == m[x.value];
      }
    }
  }

  /** The keys in insertion order: the order `entries()` visits them. */
  function Keys<V>(m: Table<V>): (r: seq<string>)
    ensures |r| == |m|
  {
    if m == [] then [] else [m[0].key] + Keys(m[1..])
  }

  /** Appending an entry appends its key. */
  lemma {:induction false} KeysAppend<V>(m: Table<V>, e: Entry<V>)
    ensures Keys(m + [e]) == Keys(m) + [e.key]
  {
    if m == [] {
      assert ([] + [e])[1..] == [];
    } else {
      assert (m + [e])[1..] == m[1..] + [e];
      KeysAppend(m[1..], e);
    }
  }

  /** Replacing an entry by one with the same key keeps the keys. */
  lemma {:induction false} KeysReplace<V>(m: Table<V>, i: nat, e: Entry<V>)
    requires i < |m| && m[i].key == e.key
    ensures Keys(m[i := e]) == Keys(m)
  {
    if i == 0 {
      assert m[i := e][1..] == m[1..];
    } else {
      assert m[i := e][1..] == m[1..][i - 1 := e];
      KeysReplace(m[1..], i - 1, e);
    }
  }

  /** `m.get(k)`. */
  function Get<V>(m: Table<V>, k: string): (r: Option<V>)
    ensures r.Some? <==> exists i :: 0 <= i < |m| && m[i].key == k
    ensures r.Some? ==> exists i :: 0 <= i < |m| && m[i] == Entry(k, r.value)
  {
    match IndexOf(m, k)
    case None => None
    case Some(i) => Some(m[i].value)
  }

  /** Looking a key up in a table with one more entry in front. */
  lemma GetCons<V>(e: Entry<V>, rest: Table<V>)
    ensures forall k :: Get([e] + rest, k) == if e.key == k then Some(e.value) else Get(rest, k)
  {
    var m := [e] + rest;
    assert m[1..] == rest;
    forall k ensures Get(m, k) == if e.key == k then Some(e.value) else Get(rest, k) {
      if e.key != k {
        match IndexOf(rest, k)
        case None =>
        case Some(i) => assert m[i + 1] == rest[i];
      }
    }
  }

  /** `m.set(k, v)`. */
  function Set<V>(m: Table<V>, k: string, v: V): (r: Table<V>)
    ensures Get(r, k) == Some(v)
    ensures forall k' :: k' != k ==> Get(r, k') == Get(m, k')
    ensures Get(m, k).None? ==> r == m + [Entry(k, v)]
    ensures Get(m, k).Some? ==> |r| == |m| && forall i :: 0 <= i < |m| ==> r[i].key == m[i].key
    ensures IndexOf(m, k).Some? ==> r == m[IndexOf(m, k).value := Entry(k, v)]
    ensures UniqueKeys(m) ==> UniqueKeys(r)
  {
    match IndexOf(m, k)
    case None =>
      var r := m + [Entry(k, v)];
      IndexOfUnique(r, k, Some(|m|));
      IndexOfOtherKeys(m, r, |m|, k);
      r
    case Some(i) =>
      var r := m[i := Entry(k, v)];
      IndexOfUnique(r, k, Some(i));
      IndexOfOtherKeys(m, r, i, k);
      r
  }

  /** `set` keeps every key where it was, and a new key goes last. */
  lemma SetKeys<V>(m: Table<V>, k: string, v: V)
    ensures Keys(Set(m, k, v)) == if Get(m, k).Some? then Keys(m) else Keys(m) + [k]
  {
    match IndexOf(m, k)
    case None => KeysAppend(m, Entry(k, v));
    case Some(i) => KeysReplace(m, i, Entry(k, v));
  }

  /** In a table with unique keys, looking up the key of entry `i` finds entry `i`. */
  lemma FirstKeyIndex<V>(m: Table<V>, found: Option<nat>)
    requires UniqueKeys(m)
    requires found.Some? ==> found.value < |m|
    ensures found.Some? ==> Get(m, m[found.value].key) == Some(m[found.value].value)
  {
    if found.Some? {
      IndexOfUnique(m, m[found.value].key, found);
    }
  }

  /** A second `set` of the same key overwrites the first. */
  lemma SetTwice<V>(m: Table<V>, k: string, a: V, b: V)
    ensures Set(Set(m, k, a), k, b) == Set(m, k, b)
  {
    var m1 := Set(m, k, a);
    match IndexOf(m, k)
    case None =>
      assert m1 == m + [Entry(k, a)];
      IndexOfUnique(m1, k, Some(|m|));
      assert Set(m1, k, b) == m1[|m| := Entry(k, b)];
      assert m1[|m| := Entry(k, b)] == m + [Entry(k, b)];
    case Some(i) =>
      assert m1 == m[i := Entry(k, a)];
      IndexOfUnique(m1, k, Some(i));
      assert Set(m1, k, b) == m1[i := Entry(k, b)];
      assert m1[i := Entry(k, b)] == m[i := Entry(k, b)];
  }

  /** `m.delete(k)`: the other entries stay, in their order. */
  function Delete<V>(m: Table<V>, k: string): (r: Table<V>)
    ensures Get(r, k).None?
    ensures forall k' :: k' != k ==> Get(r, k') == Get(m, k')
  {
    if m == [] then []
    else if m[0].key == k then
      var rest := Delete(m[1..], k);
      GetCons(m[0], m[1..]);
      assert m == [m[0]] + m[1..];
      rest
    else
      var rest := Delete(m[1..], k);
      var r := [m[0]] + rest;
      assert r[1..] == rest;
      GetCons(m[0], rest);
      GetCons(m[0], m[1..]);
      assert m == [m[0]] + m[1..];
      r
  }

  /** Deleting a key after setting it is deleting it: `set` only touches an entry with that key. */
  lemma DeleteAfterSet<V>(m: Table<V>, k: string, v: V)
    ensures Delete(Set(m, k, v), k) == Delete(m, k)
  {
    match IndexOf(m, k)
    case None => DeleteAppendKey(m, Entry(k, v));
    case Some(i) => DeleteReplaceKey(m, i, Entry(k, v));
  }

  lemma {:induction false} DeleteAppendKey<V>(m: Table<V>, e: Entry<V>)
    ensures Delete(m + [e], e.key) == Delete(m, e.key)
  {
    if m == [] {
      assert ([] + [e])[1..] == [];
    } else {
      assert (m + [e])[1..] == m[1..] + [e];
      DeleteAppendKey(m[1..], e);
    }
  }

  lemma {:induction false} DeleteReplaceKey<V>(m: Table<V>, i: nat, e: Entry<V>)
    requires i < |m| && m[i].key == e.key
    ensures Delete(m[i := e], e.key) == Delete(m, e.key)
  {
    if i == 0 {
      assert m[i := e][1..] == m[1..];
    } else {
      assert m[i := e][1..] == m[1..][i - 1 := e];
      DeleteReplaceKey(m[1..], i - 1, e);
    }
  }

  /** The index of the first entry, in insertion order, whose value satisfies `p` (a `for … of` loop that breaks on the first hit). */
  function FirstWhere<V>(m: Table<V>, p: V -> bool): (r: Option<nat>)
    ensures r.Some? ==> r.value < |m| && p(m[r.value].value)
    ensures r.Some? ==> forall j :: 0 <= j < r.value ==> !p(m[j].value)
    ensures r.None? ==> forall j :: 0 <= j < |m| ==> !p(m[j].value)
  {
    if m == [] then None
    else if p(m[0].value) then Some(0)
    else match FirstWhere(m[1..], p)
      case None => None
      case Some(i) => Some(i + 1)
  }

  /** Deleting keeps the remaining entries in their order, keeps keys unique, and removes exactly one entry when the key is present. */
  lemma DeleteShape<V>(m: Table<V>, k: string)
    ensures IsSubsequence(Delete(m, k), m)
    ensures UniqueKeys(m) ==> UniqueKeys(Delete(m, k))
    ensures UniqueKeys(m) && Get(m, k).Some? ==> |Delete(m, k)| == |m| - 1
    ensures Get(m, k).None? ==> Delete(m, k) == m
  {
    DeleteKeepsOrder(m, k);
    if Get(m, k).None? {
      DeleteAbsent(m, k);
    }
    if UniqueKeys(m) {
      DeleteKeepsUnique(m, k);
      if Get(m, k).Some? {
        DeleteDropsOne(m, k);
      }
    }
  }

  /** The entries that survive `delete` keep their relative order. */
  lemma {:induction false} DeleteKeepsOrder<V>(m: Table<V>, k: string)
    ensures IsSubsequence(Delete(m, k), m)
  {
    if m != [] {
      DeleteKeepsOrder(m[1..], k);
      if m[0].key != k {
        var r := [m[0]] + Delete(m[1..], k);
        assert r[1..] == Delete(m[1..], k);
      }
    }
  }

  /** Deleting a key that is not there changes nothing. */
  lemma {:induction false} DeleteAbsent<V>(m: Table<V>, k: string)
    requires Get(m, k).None?
    ensures Delete(m, k) == m
  {
    if m != [] {
      assert m[0].key != k;
      GetCons(m[0], m[1..]);
      assert m == [m[0]] + m[1..];
      DeleteAbsent(m[1..], k);
    }
  }

  /** Deleting keeps keys unique. */
  lemma {:induction false} DeleteKeepsUnique<V>(m: Table<V>, k: string)
    requires UniqueKeys(m)
    ensures UniqueKeys(Delete(m, k))
  {
    if m != [] {
      assert UniqueKeys(m[1..]);
      DeleteKeepsUnique(m[1..], k);
      if m[0].key != k {
        var rest := Delete(m[1..], k);
        var r := [m[0]] + rest;
        assert r[1..] == rest;
        GetCons(m[0], m[1..]);
        assert m == [m[0]] + m[1..];
        assert Get(m[1..], m[0].key).None?;
        assert Get(rest, m[0].key).None?;
      }
    }
  }

  /** In a table with unique keys, deleting a present key removes exactly one entry. */
  lemma {:induction false} DeleteDropsOne<V>(m: Table<V>, k: string)
    requires UniqueKeys(m) && Get(m, k).Some?
    ensures |Delete(m, k)| == |m| - 1
  {
    GetCons(m[0], m[1..]);
    assert m == [m[0]] + m[1..];
    assert UniqueKeys(m[1..]);
    if m[0].key == k {
      assert Get(m[1..], k).None?;
      DeleteAbsent(m[1..], k);
    } else {
      DeleteDropsOne(m[1..], k);
    }
  }
}
