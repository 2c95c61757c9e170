/**
 * Value-level vocabulary of the key/value pair list: the pair and error
 * types it hands out, and the functions over two parallel sequences (keys
 * and values) that specify the PairList class in module PairLists.
 */
module PairListSpec {

  datatype Option<T> = None | Some(value: T)

  datatype Result<T, E> = Success(value: T) | Failure(error: E)

  /** A key/value pair, as returned by get(index) and by the iterator. */
  datatype Pair<K, V> = Pair(key: K, value: V)

  /** The exceptions a pair list raises, one variant per kind. */
  datatype Error<K> =
    | IllegalArgument              // two-list constructor: key value size mismatch
    | IndexOutOfBounds(index: int) // get, keyAt, valueAt outside [0, size)
    | IllegalState(duplicate: K)   // toMap(true): "Duplicate keys: " + key
    | NoSuchElement                // iterator advanced past its end

  /** The position of the first occurrence of k in ks, or -1 (List.indexOf). */
  function IndexOf<K(==)>(ks: seq<K>, k: K): (r: int)
    ensures -1 <= r < |ks|
    ensures r == -1 <==> k !in ks
    ensures 0 <= r ==> ks[r] == k && forall j :: 0 <= j < r ==> ks[j] != k
  {
    if ks == [] then -1
    else if ks[0] == k then 0
    else
      var j := IndexOf(ks[1..], k);
      if j == -1 then -1
      else j + 1
  }

  /** The list of pairs that two parallel sequences stand for. */
  function Zip<K, V>(ks: seq<K>, vs: seq<V>): (ps: seq<Pair<K, V>>)
    requires |ks| == |vs|
    ensures |ps| == |ks|
    ensures forall i :: 0 <= i < |ps| ==> ps[i] == Pair(ks[i], vs[i])
  {
    if ks == [] then [] else [Pair(ks[0], vs[0])] + Zip(ks[1..], vs[1..])
  }

  /** No key occurs twice. */
  ghost predicate Distinct<K>(ks: seq<K>)
  {
    forall i, j :: 0 <= i < j < |ks| ==> ks[i] != ks[j]
  }

  /** Position j is the first one whose key already occurred before it. */
  ghost predicate FirstRepeatAt<K>(ks: seq<K>, j: int)
  {
    0 <= j < |ks| && ks[j] in ks[..j] && Distinct(ks[..j])
  }

  /** The set of keys of a list. */
  ghost function KeySet<K>(ks: seq<K>): set<K>
  {
    set k | k in ks
  }

  /**
   * The map obtained by putting (ks[0], vs[0]), ..., (ks[n-1], vs[n-1]) in
   * that order into an empty map: a later put of a key overwrites an earlier one.
   */
  function LastWriteMap<K(==), V>(ks: seq<K>, vs: seq<V>): map<K, V>
    requires |ks| == |vs|
    decreases |ks|
  {
    if ks == [] then map[]
    else LastWriteMap(ks[..|ks| - 1], vs[..|vs| - 1])[ks[|ks| - 1] := vs[|vs| - 1]]
  }

  /** The domain of the map is exactly the set of keys of the list. */
  lemma {:induction false} LastWriteMapDomain<K, V>(ks: seq<K>, vs: seq<V>)
    requires |ks| == |vs|
    ensures forall k :: k in LastWriteMap(ks, vs) <==> k in ks
    ensures LastWriteMap(ks, vs).Keys == KeySet(ks)
  {
    if ks != [] {
      var n := |ks|;
      LastWriteMapDomain(ks[..n - 1], vs[..n - 1]);
      assert ks == ks[..n - 1] + [ks[n - 1]];
    }
  }

  /** Every key maps to the value stored at its last occurrence. */
  lemma {:induction false} LastWriteMapLastOccurrence<K, V>(ks: seq<K>, vs: seq<V>, i: nat)
    requires |ks| == |vs| && i < |ks|
    requires ks[i] !in ks[i + 1..]
    ensures ks[i] in LastWriteMap(ks, vs) && LastWriteMap(ks, vs)[ks[i]] == vs[i]
  {
    var n := |ks|;
    if i < n - 1 {
      assert ks[n - 1] == ks[i + 1..][n - 2 - i];
      assert ks[..n - 1][i + 1..] == ks[i + 1..n - 1];
      LastWriteMapLastOccurrence(ks[..n - 1], vs[..n - 1], i);
    }
  }

  /** With distinct keys, the map holds every pair of the list unchanged. */
  lemma {:induction false} DistinctKeysMapEachPair<K, V>(ks: seq<K>, vs: seq<V>)
    requires |ks| == |vs| && Distinct(ks)
    ensures forall i :: 0 <= i < |ks| ==> ks[i] in LastWriteMap(ks, vs) && LastWriteMap(ks, vs)[ks[i]] == vs[i]
  {
    forall i | 0 <= i < |ks|
      ensures ks[i] in LastWriteMap(ks, vs) && LastWriteMap(ks, vs)[ks[i]] == vs[i]
    {
      LastWriteMapLastOccurrence(ks, vs, i);
    }
  }

  /**
   * Round trip: listing the entries of m once each, in any order, and then
   * converting the list back gives m.
   */
  lemma EnumerationRoundTrip<K, V>(ks: seq<K>, vs: seq<V>, m: map<K, V>)
    requires |ks| == |vs| && Distinct(ks)
    requires forall k :: k in m <==> k in ks
    requires forall i :: 0 <= i < |ks| ==> vs[i] == m[ks[i]]
    ensures LastWriteMap(ks, vs) == m
  {
    var t := LastWriteMap(ks, vs);
    LastWriteMapDomain(ks, vs);
    DistinctKeysMapEachPair(ks, vs);
    forall k | k in m
      ensures t[k] == m[k]
    {
      var i :| 0 <= i < |ks| && ks[i] == k;
    }
  }

  /**
   * A list has as many distinct keys as entries exactly when no key repeats;
   * otherwise it has fewer.
   */
  lemma {:induction false} KeySetSize<K>(ks: seq<K>)
    ensures |KeySet(ks)| <= |ks|
    ensures |KeySet(ks)| == |ks| <==> Distinct(ks)
  {
    if ks != [] {
      var n := |ks|;
      var init := ks[..n - 1];
      KeySetSize(init);
      assert ks == init + [ks[n - 1]];
      assert KeySet(ks) == KeySet(init) + {ks[n - 1]};
      if ks[n - 1] in init {
        assert KeySet(ks) == KeySet(init);
        var a :| 0 <= a < n - 1 && init[a] == ks[n - 1];
        assert !Distinct(ks) by { assert ks[a] == ks[n - 1]; }
      } else {
        assert Distinct(ks) <==> Distinct(init) by {
          if Distinct(init) {
            forall i, j | 0 <= i < j < n ensures ks[i] != ks[j] {
              if j == n - 1 { assert ks[i] == init[i]; }
              else { assert ks[i] == init[i] && ks[j] == init[j]; }
            }
          }
          if Distinct(ks) {
            forall i, j | 0 <= i < j < n - 1 ensures init[i] != init[j] {
              assert init[i] == ks[i] && init[j] == ks[j];
            }
          }
        }
      }
    }
  }

  /**
   * The conversion to a map loses entries exactly when some key repeats: the
   * condition under which the checked conversion fails.
   */
  lemma DuplicateIffMapSmaller<K, V>(ks: seq<K>, vs: seq<V>)
    requires |ks| == |vs|
    ensures !Distinct(ks) <==> |LastWriteMap(ks, vs)| < |ks|
    ensures Distinct(ks) <==> |LastWriteMap(ks, vs)| == |ks|
  {
    LastWriteMapDomain(ks, vs);
    KeySetSize(ks);
  }
}
