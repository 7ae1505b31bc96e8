/** Python dictionaries with string keys: insertion-ordered association lists with unique keys. */
module Assoc {
  import opened Wrappers

  /** The keys of a dictionary, in iteration order. */
  function Keys<V>(items: seq<(string, V)>): (ks: seq<string>)
    ensures |ks| == |items|
    ensures forall i :: 0 <= i < |items| ==> ks[i] == items[i].0
  {
    if items == [] then [] else [items[0].0] + Keys(items[1..])
  }

  predicate UniqueKeys<V>(items: seq<(string, V)>)
  {
    forall i, j :: 0 <= i < j < |items| ==> items[i].0 != items[j].0
  }

  /** `d.get(k)`: the value stored under `k`, if any. */
  function Lookup<V>(items: seq<(string, V)>, k: string): (r: Option<V>)
    ensures r.None? <==> k !in Keys(items)
    ensures r.Some? ==> exists i :: 0 <= i < |items| && items[i] == (k, r.value)
  {
    if items == [] then None
    else if items[0].0 == k then Some(items[0].1)
    else Lookup(items[1..], k)
  }

  /** Position of a key known to be present. */
  function IndexOf<V>(items: seq<(string, V)>, k: string): (i: nat)
    requires k in Keys(items)
    ensures i < |items| && items[i].0 == k
    ensures forall j :: 0 <= j < i ==> items[j].0 != k
  {
    if items[0].0 == k then 0 else 1 + IndexOf(items[1..], k)
  }

  /** `d[k] = v`: an existing key keeps its position and takes the new value; a new key goes last. */
  function Assign<V>(items: seq<(string, V)>, k: string, v: V): (r: seq<(string, V)>)
  {
    if k in Keys(items) then items[IndexOf(items, k) := (k, v)] else items + [(k, v)]
  }

  lemma LookupAt<V>(items: seq<(string, V)>, i: nat)
    requires UniqueKeys(items) && i < |items|
    ensures Lookup(items, items[i].0) == Some(items[i].1)
  {
    var k := items[i].0;
    if k in Keys(items) {
      var r := Lookup(items, k);
      var j :| 0 <= j < |items| && items[j] == (k, r.value);
      assert i == j;
    }
  }

  lemma AssignProperties<V>(items: seq<(string, V)>, k: string, v: V)
    requires UniqueKeys(items)
    ensures UniqueKeys(Assign(items, k, v))
    ensures Lookup(Assign(items, k, v), k) == Some(v)
    ensures k in Keys(items) ==> Keys(Assign(items, k, v)) == Keys(items)
    ensures k !in Keys(items) ==> Keys(Assign(items, k, v)) == Keys(items) + [k]
    ensures forall k' :: k' != k ==> Lookup(Assign(items, k, v), k') == Lookup(items, k')
  {
    AssignKeys(items, k, v);
    var r := Assign(items, k, v);
    var i := if k in Keys(items) then IndexOf(items, k) else |items|;
    assert r[i] == (k, v);
    LookupAt(r, i);
    forall k' | k' != k
      ensures Lookup(r, k') == Lookup(items, k')
    {
      AssignOther(items, k, v, k');
    }
  }

  /** Assigning keeps the keys distinct and adds `k` at the end when it was missing. */
  lemma AssignKeys<V>(items: seq<(string, V)>, k: string, v: V)
    requires UniqueKeys(items)
    ensures UniqueKeys(Assign(items, k, v))
    ensures k in Keys(items) ==> Keys(Assign(items, k, v)) == Keys(items)
    ensures k !in Keys(items) ==> Keys(Assign(items, k, v)) == Keys(items) + [k]
  {
    var r := Assign(items, k, v);
    assert |r| == |items| + (if k in Keys(items) then 0 else 1);
    if k in Keys(items) {
      assert Keys(r) == Keys(items);
    } else {
      assert Keys(r) == Keys(items) + [k];
    }
  }

  /** Assigning to `k` leaves every other key's value alone. */
  lemma AssignOther<V>(items: seq<(string, V)>, k: string, v: V, k': string)
    requires UniqueKeys(items) && k' != k
    ensures Lookup(Assign(items, k, v), k') == Lookup(items, k')
  {
    AssignKeys(items, k, v);
    var r := Assign(items, k, v);
    if k' in Keys(items) {
      var j := IndexOf(items, k');
      assert r[j] == items[j];
      LookupAt(items, j);
      LookupAt(r, j);
    } else {
      assert forall j :: 0 <= j < |r| ==> r[j].0 != k';
      assert k' !in Keys(r);
    }
  }

  /** Assigning to a key at a known position rewrites that position only. */
  lemma AssignAt<V>(items: seq<(string, V)>, i: nat, v: V)
    requires UniqueKeys(items) && i < |items|
    ensures Assign(items, items[i].0, v) == items[i := (items[i].0, v)]
    ensures UniqueKeys(items[i := (items[i].0, v)])
  {
    assert items[i].0 in Keys(items);
    assert IndexOf(items, items[i].0) == i;
  }

  /** A mutable dictionary; `items` is its contents in insertion order. */
  class Dict<V> {
    var items: seq<(string, V)>

    predicate Valid()
      reads this
    {
      UniqueKeys(items)
    }

    constructor (items: seq<(string, V)>)
      requires UniqueKeys(items)
      ensures Valid() && this.items == items
    {
      this.items := items;
    }

    /** `self[k] = v`. */
    method Set(k: string, v: V)
      requires Valid()
      modifies this
      ensures Valid()
      ensures items == Assign(old(items), k, v)
    {
      AssignProperties(items, k, v);
      items := Assign(items, k, v);
    }
  }
}
