/**
 * The ordered key/value list: two parallel lists, keys and values, that
 * always have the same length. Duplicate keys are allowed. The lists are
 * updated in place by add and remove, so the list is a class whose fields
 * the methods reassign; the read accessors are functions of those fields.
 */
module PairLists {
  import opened PairListSpec

  class PairList<K(==), V> {
    var keys: seq<K>
    var values: seq<V>

    /** The two lists stay parallel: entry i is (keys[i], values[i]). */
    ghost predicate Valid()
      reads this
    {
      |keys| == |values|
    }

    /** The entries in list order, as get and the iterator hand them out. */
    ghost function Entries(): seq<Pair<K, V>>
      reads this
      requires Valid()
    {
      Zip(keys, values)
    }

    /** An empty list. */
    constructor ()
      ensures Valid() && keys == [] && values == []
    {
      keys := [];
      values := [];
    }

    /** A list holding the given keys and values; they must have equal sizes. */
    static method FromLists(ks: seq<K>, vs: seq<V>) returns (r: Result<PairList<K, V>, Error<K>>)
      ensures r.Failure? <==> |ks| != |vs|
      ensures r.Failure? ==> r.error == IllegalArgument
      ensures r.Success? ==> fresh(r.value) && r.value.Valid()
      ensures r.Success? ==> r.value.keys == ks && r.value.values == vs
    {
      if |ks| != |vs| {
        return Failure(IllegalArgument);
      }
      var list := new PairList();
      list.keys, list.values := ks, vs;
      r := Success(list);
    }

    /**
     * A list holding every entry of m once, in an order the model leaves
     * open (that of the map's iteration); converting it back gives m.
     */
    constructor FromMap(m: map<K, V>)
      ensures Valid() && Distinct(keys)
      ensures forall k :: k in keys <==> k in m
      ensures forall i :: 0 <= i < |keys| ==> values[i] == m[keys[i]]
      ensures LastWriteMap(keys, values) == m
    {
      var ks: seq<K>, vs: seq<V> := [], [];
      var rest := m.Keys;
      while rest != {}
        invariant |ks| == |vs| && Distinct(ks)
        invariant rest <= m.Keys
        invariant forall k :: k in ks <==> k in m && k !in rest
        invariant forall i :: 0 <= i < |ks| ==> ks[i] in m && vs[i] == m[ks[i]]
        decreases |rest|
      {
        var k :| k in rest;
        ks, vs := ks + [k], vs + [m[k]];
        rest := rest - {k};
      }
      EnumerationRoundTrip(ks, vs, m);
      keys, values := ks, vs;
    }

    /** Appends the pair (key, value); every earlier entry is unchanged. */
    method Add(key: K, value: V)
      requires Valid()
      modifies this
      ensures Valid()
      ensures keys == old(keys) + [key] && values == old(values) + [value]
      ensures Entries() == old(Entries()) + [Pair(key, value)]
    {
      keys := keys + [key];
      values := values + [value];
    }

    /** Appends the key and the value of a pair. */
    method AddPair(pair: Pair<K, V>)
      requires Valid()
      modifies this
      ensures Valid()
      ensures keys == old(keys) + [pair.key] && values == old(values) + [pair.value]
      ensures Entries() == old(Entries()) + [pair]
    {
      keys := keys + [pair.key];
      values := values + [pair.value];
    }

    /** The number of entries: the length of both lists. */
    function Size(): (n: nat)
      reads this
      requires Valid()
      ensures n == |values| && n == |Entries()|
    {
      |keys|
    }

    /** The entry at a position; any position outside [0, size) is an error. */
    function Get(index: int): (r: Result<Pair<K, V>, Error<K>>)
      reads this
      requires Valid()
      ensures r.Success? <==> 0 <= index < Size()
      ensures r.Success? ==> r.value == Entries()[index]
      ensures r.Success? ==> r.value == Pair(KeyAt(index).value, ValueAt(index).value)
      ensures r.Failure? ==> r.error == IndexOutOfBounds(index)
    {
      if 0 <= index < |keys| then Success(Pair(keys[index], values[index]))
      else Failure(IndexOutOfBounds(index))
    }

    /** The key at a position; any position outside [0, size) is an error. */
    function KeyAt(index: int): (r: Result<K, Error<K>>)
      reads this
      requires Valid()
      ensures r.Success? <==> 0 <= index < Size()
      ensures r.Success? ==> r.value == Entries()[index].key
      ensures r.Failure? ==> r.error == IndexOutOfBounds(index)
    {
      if 0 <= index < |keys| then Success(keys[index]) else Failure(IndexOutOfBounds(index))
    }

    /** The value at a position; any position outside [0, size) is an error. */
    function ValueAt(index: int): (r: Result<V, Error<K>>)
      reads this
      requires Valid()
      ensures r.Success? <==> 0 <= index < Size()
      ensures r.Success? ==> r.value == Entries()[index].value
      ensures r.Failure? ==> r.error == IndexOutOfBounds(index)
    {
      if 0 <= index < |values| then Success(values[index]) else Failure(IndexOutOfBounds(index))
    }

    /**
     * Removes the entry at the first position holding key and returns its
     * value; the other entries keep their order. An absent key yields None
     * and leaves the list as it was.
     */
    method Remove(key: K) returns (r: Option<V>)
      requires Valid()
      modifies this
      ensures Valid()
      ensures r.None? <==> !old(Contains(key))
      ensures r.None? ==> keys == old(keys) && values == old(values)
      ensures r.Some? ==>
        var i := IndexOf(old(keys), key);
        && 0 <= i && old(keys)[i] == key && key !in old(keys)[..i]
        && r.value == old(values)[i]
        && keys == old(keys)[..i] + old(keys)[i + 1..]
        && values == old(values)[..i] + old(values)[i + 1..]
        && Entries() == old(Entries())[..i] + old(Entries())[i + 1..]
    {
      var index := IndexOf(keys, key);
      if index == -1 {
        return None;
      }
      ghost var entries := Entries();
      r := Some(values[index]);
      keys := keys[..index] + keys[index + 1..];
      values := values[..index] + values[index + 1..];
      assert Entries() == entries[..index] + entries[index + 1..];
    }

    /** Whether some entry has this key. */
    function Contains(key: K): (b: bool)
      reads this
      ensures b <==> exists i :: 0 <= i < |keys| && keys[i] == key
    {
      IndexOf(keys, key) >= 0
    }

    /** A fresh iterator over this list, positioned before the first entry. */
    method Iterator() returns (it: Itr<K, V>)
      requires Valid()
      ensures fresh(it) && it.list == this
      ensures it.cursor == 0 && it.size == Size()
    {
      it := new Itr(this);
    }

    /** toMap(): the conversion that rejects repeated keys. */
    method ToMapChecked() returns (r: Result<map<K, V>, Error<K>>)
      requires Valid()
      ensures r.Failure? <==> !Distinct(keys)
      ensures r.Failure? ==> exists j :: FirstRepeatAt(keys, j) && r.error == IllegalState(keys[j])
      ensures r.Success? ==> r.value == LastWriteMap(keys, values)
      ensures r.Success? ==> forall i :: 0 <= i < |keys| ==> keys[i] in r.value && r.value[keys[i]] == values[i]
    {
      r := ToMap(true);
      if r.Success? {
        DistinctKeysMapEachPair(keys, values);
      }
    }

    /**
     * The map from each key to the value of its last entry. With
     * checkDuplicate, the first entry whose key already occurred raises
     * IllegalState naming that key. The list is not changed.
     */
    method ToMap(checkDuplicate: bool) returns (r: Result<map<K, V>, Error<K>>)
      requires Valid()
      ensures r.Failure? <==> checkDuplicate && !Distinct(keys)
      ensures r.Failure? ==> exists j :: FirstRepeatAt(keys, j) && r.error == IllegalState(keys[j])
      ensures r.Success? ==> r.value == LastWriteMap(keys, values)
      ensures r.Success? ==> r.value.Keys == KeySet(keys)
    {
      var size := |keys|;
      var m: map<K, V> := map[];
      for i := 0 to size
        invariant m == LastWriteMap(keys[..i], values[..i])
        invariant forall k :: k in m <==> k in keys[..i]
        invariant checkDuplicate ==> Distinct(keys[..i])
      {
        var key := keys[i];
        var existed := key in m;
        m := m[key := values[i]];
        assert keys[..i + 1][..i] == keys[..i] && values[..i + 1][..i] == values[..i];
        if existed && checkDuplicate {
          assert FirstRepeatAt(keys, i);
          return Failure(IllegalState(key));
        }
        assert keys[..i + 1] == keys[..i] + [key];
      }
      assert keys[..size] == keys && values[..size] == values;
      LastWriteMapDomain(keys, values);
      r := Success(m);
    }
  }

  /**
   * The list's iterator. It records the size when it is created and reads
   * the live list on every step, so an entry removed afterwards makes a
   * later step fail with IndexOutOfBounds.
   */
  class Itr<K(==), V> {
    const list: PairList<K, V>
    var cursor: nat
    const size: nat

    constructor (list: PairList<K, V>)
      requires list.Valid()
      ensures this.list == list && cursor == 0 && size == list.Size()
    {
      this.list := list;
      cursor := 0;
      size := list.Size();
    }

    /**
     * Whether entries remain below the size recorded at creation; unless
     * the list has since shrunk, a true answer means the next step succeeds.
     */
    predicate HasNext()
      reads this, list
      requires list.Valid()
      ensures HasNext() && size <= list.Size() ==> list.Get(cursor).Success?
    {
      cursor < size
    }

    /**
     * The entry at the cursor, which then moves one step; at the end,
     * NoSuchElement and the cursor stays.
     */
    method Next() returns (r: Result<Pair<K, V>, Error<K>>)
      requires list.Valid()
      modifies this
      ensures !old(HasNext()) ==> r == Failure(NoSuchElement) && cursor == old(cursor)
      ensures old(HasNext()) ==> cursor == old(cursor) + 1 && r == list.Get(old(cursor))
    {
      if cursor >= size {
        return Failure(NoSuchElement);
      }
      var at := cursor;
      cursor := cursor + 1;
      r := list.Get(at);
    }
  }

  /**
   * A for-each loop over a list that the loop does not change: the iterator
   * hands out every entry exactly once, in list order.
   */
  method IterateAll<K(==), V>(list: PairList<K, V>) returns (ps: seq<Pair<K, V>>)
    requires list.Valid()
    ensures ps == list.Entries()
    ensures forall i :: 0 <= i < |ps| ==> list.Get(i) == Success(ps[i])
  {
    var it := list.Iterator();
    ps := [];
    while it.HasNext()
      invariant fresh(it) && it.list == list && it.size == list.Size()
      invariant it.cursor <= it.size
      invariant ps == list.Entries()[..it.cursor]
      decreases it.size - it.cursor
    {
      var p := it.Next();
      ps := ps + [p.value];
    }
    assert ps == list.Entries()[..list.Size()];
  }

  /** The duplicate-key scenario: keys a, b, a with values 1, 2, 3. */
  method ToMapScenario()
  {
    var list := new PairList<string, int>();
    list.Add("a", 1);
    list.Add("b", 2);
    list.Add("a", 3);
    var checked := list.ToMap(true);
    assert list.keys[0] == list.keys[2];
    assert checked.Failure?;
    var unchecked := list.ToMap(false);
    assert unchecked.Success?;
    LastWriteMapLastOccurrence(list.keys, list.values, 1);
    LastWriteMapLastOccurrence(list.keys, list.values, 2);
    LastWriteMapDomain(list.keys, list.values);
    assert unchecked.value == map["a" := 3, "b" := 2];
    var removed := list.Remove("a");
    assert removed == Some(1);
    assert list.Entries() == [Pair("b", 2), Pair("a", 3)];
  }
}
