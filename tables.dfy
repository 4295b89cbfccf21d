/**
 * The keyed collections of the entity store. The source keeps each entity
 * type in a JavaScript `Map<string, Record>`; such a map remembers the order
 * in which keys were first inserted, `set` on an existing key keeps its
 * position, and `delete` drops the key from that order. `Table` models
 * exactly that: a map from key to record plus the insertion order of keys.
 */
module Tables {
  import opened Wrappers
  import opened Seqs

  datatype Table<R> = Table(order: seq<string>, rows: map<string, R>) {

    /** The order lists each key of `rows` exactly once. */
    ghost predicate Valid() {
      Distinct(order) && forall k :: k in rows <==> k in order
    }

    /** `map.get(k)`. */
    function Get(k: string): Option<R> {
      if k in rows then Some(rows[k]) else None
    }

    /** `map.size`. */
    function Size(): nat {
      |order|
    }

    /** `Array.from(map.values())`: the records in key-insertion order. */
    function Values(): (vs: seq<R>)
      requires Valid()
      ensures |vs| == |order|
      ensures forall i :: 0 <= i < |order| ==> vs[i] == rows[order[i]]
    {
      seq(|order|, i requires 0 <= i < |order| => rows[order[i]])
    }

    /** `map.set(k, r)`: a new key goes to the end, an existing key keeps its place. */
    function Set(k: string, r: R): (t: Table<R>)
      requires Valid()
      ensures t.Valid()
      ensures t.Get(k) == Some(r)
      ensures forall j :: j != k ==> t.Get(j) == Get(j)
      ensures k in rows ==> t.order == order
      ensures k !in rows ==> t.order == order + [k]
    {
      Table(if k in rows then order else order + [k], rows[k := r])
    }

    /** `map.delete(k)`: the key leaves both the map and the order. */
    function Delete(k: string): (t: Table<R>)
      requires Valid()
      ensures t.Valid()
      ensures t.Get(k) == None
      ensures forall j :: j != k ==> t.Get(j) == Get(j)
      ensures t.Size() == if k in rows then Size() - 1 else Size()
    {
      FilterOutKey(order, k);
      Table(Without(order, k), rows - {k})
    }

    /** A key that is not in use: longer than every key present. */
    function FreshKey(): (k: string)
      requires Valid()
      ensures k !in rows
    {
      var n := Longest(order);
      Repeat('u', n + 1)
    }
  }

  /** The empty table. */
  function Empty<R>(): (t: Table<R>)
    ensures t.Valid() && t.Size() == 0 && t.rows == map[]
  {
    Table([], map[])
  }

  /** The length of the longest string in `s` (0 when empty). */
  function Longest(s: seq<string>): (n: nat)
    ensures forall i :: 0 <= i < |s| ==> |s[i]| <= n
  {
    if s == [] then 0
    else
      var m := Longest(s[1..]);
      assert forall i :: 1 <= i < |s| ==> s[i] == s[1..][i - 1];
      if |s[0]| > m then |s[0]| else m
  }

  /** `s` with every occurrence of `k` removed, order kept. */
  function Without(s: seq<string>, k: string): (r: seq<string>)
    ensures forall j :: j in r <==> j in s && j != k
  {
    if s == [] then [] else (if s[0] == k then [] else [s[0]]) + Without(s[1..], k)
  }

  /** Removing a key absent from `s` changes nothing. */
  lemma {:induction false} WithoutAbsent(s: seq<string>, k: string)
    requires k !in s
    ensures Without(s, k) == s
  {
    if s != [] {
      WithoutAbsent(s[1..], k);
    }
  }

  /** Removing the one occurrence of `s[i]` from a duplicate-free sequence leaves the rest in order. */
  lemma {:induction false} WithoutOne(s: seq<string>, i: nat)
    requires Distinct(s) && i < |s|
    ensures Without(s, s[i]) == s[..i] + s[i + 1..]
  {
    if i == 0 {
      assert s[0] !in s[1..];
      WithoutAbsent(s[1..], s[0]);
    } else {
      WithoutOne(s[1..], i - 1);
      assert s[1..][..i - 1] == s[1..i];
      assert s[1..][i..] == s[i + 1..];
      assert s[..i] == [s[0]] + s[1..i];
    }
  }

  /** Removing a key from a duplicate-free order removes at most one entry and keeps it duplicate-free. */
  lemma FilterOutKey(order: seq<string>, k: string)
    requires Distinct(order)
    ensures Distinct(Without(order, k))
    ensures |Without(order, k)| == if k in order then |order| - 1 else |order|
  {
    if k in order {
      var i :| 0 <= i < |order| && order[i] == k;
      WithoutOne(order, i);
    } else {
      WithoutAbsent(order, k);
    }
  }

  /** Overwriting an existing key replaces its record in place in the listing. */
  lemma SetExistingValues<R>(t: Table<R>, k: string, r: R)
    requires t.Valid() && k in t.rows
    ensures |t.Set(k, r).Values()| == |t.Values()|
    ensures forall i :: 0 <= i < |t.order| ==>
      t.Set(k, r).Values()[i] == if t.order[i] == k then r else t.Values()[i]
  {
  }

  /** Inserting a new key appends its record to the listing. */
  lemma {:induction false} SetNewValues<R>(t: Table<R>, k: string, r: R)
    requires t.Valid() && k !in t.rows
    ensures t.Set(k, r).Values() == t.Values() + [r]
  {
    var t' := t.Set(k, r);
    var vs, ws := t.Values(), t'.Values();
    var grown := vs + [r];
    assert t'.order == t.order + [k] && t'.rows == t.rows[k := r];
    forall i | 0 <= i < |ws| ensures ws[i] == grown[i] {
      if i < |t.order| {
        assert t'.order[i] == t.order[i] && t.order[i] in t.rows && t.order[i] != k;
        assert grown[i] == vs[i];
      } else {
        assert t'.order[i] == k && grown[i] == r;
      }
    }
    assert ws == grown;
  }

  /** Deleting a present key drops exactly its record from the listing. */
  lemma {:induction false} DeleteValues<R>(t: Table<R>, i: nat)
    requires t.Valid() && i < |t.order|
    ensures t.Delete(t.order[i]).Values() == t.Values()[..i] + t.Values()[i + 1..]
  {
    var k := t.order[i];
    WithoutOne(t.order, i);
    var t' := t.Delete(k);
    var o, o' := t.order, t'.order;
    assert o' == o[..i] + o[i + 1..];
    var vs, ws := t.Values(), t'.Values();
    var rest := vs[..i] + vs[i + 1..];
    forall j | 0 <= j < |ws| ensures ws[j] == rest[j] {
      var src := if j < i then j else j + 1;
      assert o'[j] == o[src] && rest[j] == vs[src];
      assert o[src] != o[i];
    }
    assert ws == rest;
  }

}
