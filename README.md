# PairList: a verified model of the ordered key/value list

This project models `PairList`, an ordered list of key/value pairs from the
`software.amazon.ai.util` package. The engine uses it to pass named operator
parameters across the native-call boundary. The list keeps two parallel lists,
`keys` and `values`, which always have the same length. A key may occur more
than once. The list supports:

- positional access (`get`, `keyAt`, `valueAt`);
- appending (`add`);
- removing the first entry with a given key (`remove`);
- a membership test (`contains`);
- an iterator;
- conversion to a map (`toMap`), which can either reject repeated keys or let
  the last one win.

Two modules:

- `PairListSpec` (`pair_list_spec.dfy`) holds the values the list hands out:
  `Pair`, `Option`, `Result`, and `Error`, which has one variant per exception
  the Java code raises. It also holds the functions that specify the list over
  two parallel sequences: `IndexOf` (first occurrence, like `List.indexOf`),
  `Zip` (the list of entries), `Distinct`, and `LastWriteMap`. `LastWriteMap`
  is the map you get by putting every pair, in order, into an empty map. The
  lemmas about these functions live here too.
- `PairLists` (`pair_list.dfy`) holds the class `PairList`. Its fields `keys`
  and `values` are sequences that `Add`, `AddPair` and `Remove` reassign, the
  way the Java methods change their `ArrayList`s in place. `Valid()` is the
  equal-length invariant, and `Entries()` is the list of pairs the two fields
  stand for. The read accessors are functions of the fields. `ToMap` is a
  method with the same `for` loop as the source, proved against
  `LastWriteMap`. The module also holds the inner iterator class `Itr`, with
  its mutable `cursor`, and `IterateAll`, a for-each loop over the iterator
  that is proved to yield exactly the entries, in order.

The Java exceptions become values:

| Java exception | Model |
|---|---|
| `IllegalArgumentException` (key/value size mismatch) | `Failure(IllegalArgument)` |
| `IndexOutOfBoundsException` from `List.get` | `Failure(IndexOutOfBounds(i))` |
| `IllegalStateException("Duplicate keys: " + key)` | `Failure(IllegalState(key))` |
| `NoSuchElementException` | `Failure(NoSuchElement)` |

`remove` of an absent key returns Java's `null`. The model returns `None`.

Two behaviours of the code shape the model:

- With checkDuplicate, `toMap` throws on the first key that was already put.
  The half-filled map is then discarded, so the model fails with no map at
  all (PairList.java:235-238). When it succeeds, each key holds the value of
  its last entry, because `put` replaces an earlier value.
- The iterator records only the size at creation, and each `next()` reads the
  live list (PairList.java:247-263). After a `remove`, `next()` can therefore
  fail with `IndexOutOfBounds` from `get`. `Itr.Next` models this, including
  that the cursor has already advanced when `get` fails.

## Model

| member | source | states |
|---|---|---|
| `PairLists.PairList.constructor` | api/src/main/java/software/amazon/ai/util/PairList.java:33-37 | The new list is empty and satisfies the equal-length invariant |
| `PairLists.PairList.FromLists` | api/src/main/java/software/amazon/ai/util/PairList.java:50-63 | Fails with IllegalArgument exactly when the two lists differ in size; otherwise returns a fresh valid list holding exactly those keys and values |
| `PairLists.PairList.FromMap` | api/src/main/java/software/amazon/ai/util/PairList.java:65-77 | Lists every entry of the map exactly once: keys are distinct, the key set is the map's domain, each value is the map's value for its key, and converting the list back to a map gives the original map |
| `PairLists.PairList.Add` | api/src/main/java/software/amazon/ai/util/PairList.java:79-88 | Appends the key to keys and the value to values; the invariant is kept, the size grows by one, and the entries become the old entries followed by the new pair |
| `PairLists.PairList.AddPair` | api/src/main/java/software/amazon/ai/util/PairList.java:90-98 | Appends the pair's key and value; the entries become the old entries followed by that pair |
| `PairLists.PairList.Size` | api/src/main/java/software/amazon/ai/util/PairList.java:100-107 | The size counted on keys is also the length of values and the number of entries |
| `PairLists.PairList.Get` | api/src/main/java/software/amazon/ai/util/PairList.java:109-117 | Succeeds exactly for 0 <= index < size; the result is the index-th entry, which is the pair (keyAt(index), valueAt(index)); any other index gives IndexOutOfBounds(index) |
| `PairLists.PairList.KeyAt` | api/src/main/java/software/amazon/ai/util/PairList.java:119-127 | Succeeds exactly for 0 <= index < size, with the key of the index-th entry; otherwise IndexOutOfBounds(index) |
| `PairLists.PairList.ValueAt` | api/src/main/java/software/amazon/ai/util/PairList.java:129-137 | Succeeds exactly for 0 <= index < size, with the value of the index-th entry; otherwise IndexOutOfBounds(index) |
| `PairLists.PairList.Remove` | api/src/main/java/software/amazon/ai/util/PairList.java:187-200 | Returns None and leaves both lists unchanged exactly when the key is absent; otherwise deletes only the first position holding the key from both lists, keeps all other entries in order, and returns that position's value |
| `PairLists.PairList.Contains` | api/src/main/java/software/amazon/ai/util/PairList.java:202-210 | True exactly when some position of keys holds the key |
| `PairLists.PairList.Iterator` | api/src/main/java/software/amazon/ai/util/PairList.java:212-216 | Every call returns a fresh iterator over this list, with its cursor at 0 and the current size recorded |
| `PairLists.PairList.ToMapChecked` | api/src/main/java/software/amazon/ai/util/PairList.java:218-225 | toMap() is the checking conversion: fails exactly when a key repeats, naming the key at the first repeated position; otherwise every entry of the list is in the map unchanged |
| `PairLists.PairList.ToMap` | api/src/main/java/software/amazon/ai/util/PairList.java:227-242 | Fails exactly when checkDuplicate holds and a key repeats, with IllegalState naming the key at the first position whose key occurred earlier; on success the domain is the key set and the map equals the in-order last-write-wins fold; the list is not modified |
| `PairLists.Itr.constructor` | api/src/main/java/software/amazon/ai/util/PairList.java:244-250 | The iterator refers to the list, starts at cursor 0 and records the list's size at creation |
| `PairLists.Itr.HasNext` | api/src/main/java/software/amazon/ai/util/PairList.java:252-255 | Unless the list has shrunk since the iterator was created, a true answer (the cursor is below the recorded size) means get at the cursor succeeds |
| `PairLists.Itr.Next` | api/src/main/java/software/amazon/ai/util/PairList.java:257-264 | Past the recorded size: NoSuchElement and the cursor stays; otherwise the cursor advances by one and the result is get at the old cursor, which is an IndexOutOfBounds failure if the list has shrunk since |
| `PairLists.IterateAll` | api/src/main/java/software/amazon/ai/util/PairList.java:212-265 | Iterating an unchanged list with hasNext/next yields get(0), ..., get(n-1) in order, that is, exactly the list's entries |
| `PairListSpec.IndexOf` | api/src/main/java/software/amazon/ai/util/PairList.java:194-196 | The result is -1 exactly when the key is absent; otherwise it is a position holding the key, and no earlier position holds it |
| `PairListSpec.Zip` | api/src/main/java/software/amazon/ai/util/PairList.java:28-31 | The entry view of the two parallel lists has their common length, and its i-th pair is (keys[i], values[i]) |
| `PairListSpec.LastWriteMapDomain` | api/src/main/java/software/amazon/ai/util/PairList.java:233-241 | The domain of the converted map is exactly the set of keys in the list |
| `PairListSpec.LastWriteMapLastOccurrence` | api/src/main/java/software/amazon/ai/util/PairList.java:236-240 | Each key maps to the value stored at its last occurrence in the list |
| `PairListSpec.DistinctKeysMapEachPair` | api/src/main/java/software/amazon/ai/util/PairList.java:233-241 | When no key repeats, the map holds every pair of the list: key i maps to value i |
| `PairListSpec.EnumerationRoundTrip` | api/src/main/java/software/amazon/ai/util/PairList.java:70-77 | Listing a map's entries once each, in any order, and converting the list back to a map gives the original map |
| `PairListSpec.KeySetSize` | api/src/main/java/software/amazon/ai/util/PairList.java:236-240 | A list has at most as many distinct keys as entries, with equality exactly when no key repeats |
| `PairListSpec.DuplicateIffMapSmaller` | api/src/main/java/software/amazon/ai/util/PairList.java:236-240 | A key repeats exactly when the converted map has fewer entries than the list; this is the condition under which the checking conversion fails |

## Left out

- The initial-capacity constructor (lines 45-48): capacity is not observable. Its only behaviour beyond the empty constructor is the exception for a negative capacity, which belongs to `ArrayList`.
- `keys()` and `values()` (lines 144-155) return the internal lists themselves, and the two-list constructor stores the caller's lists (lines 61-62). The model's sequences are values, so the aliasing these create is not modelled. `FromLists` copies.
- `keyArray` and `valueArray` (lines 168-185): they rely on Java's runtime-typed `toArray` reflection, which has no counterpart here.
- `PairLists.PairList.FromMap` fixes no entry order. Java's order is that of the map's entry-set iteration, which is not modelled.
- `PairLists.PairList.ToMap` returns a plain map. The `ConcurrentHashMap` details are not modelled: the initial capacity `size * 3 / 2`, the rejection of null keys and values, and thread safety. Because of the capacity, on a list of 715,827,883 to 1,431,655,764 entries `size * 3` overflows `int` and the capacity passed to `new ConcurrentHashMap<>(...)` (PairList.java:235) is negative, so Java throws IllegalArgumentException; on such a list the model's `ToMap` succeeds. Above that range the wrapped capacity is non-negative again, and Java, like the model, returns a map.
- Null keys and values: the model's values are never null. So `Remove` returning `None` means "absent", whereas Java's `null` can also be a stored null value.
- `Size` and indices are unbounded integers. Java's `int` limit on list size belongs to `ArrayList`, which the model does not bound.
- `Iterator.remove` (the default that throws `UnsupportedOperationException`) and concurrent modification from several threads are not modelled.
- NDFactory.java and ZooDataset.java are not part of this model. The first is an interface whose implementations and native allocations are not available. The second is download and file I/O around a repository that is not available.
