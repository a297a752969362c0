/**
 `LongMapImpl`: a chained hash table from `long` keys to values, over an
 array of bucket slots, an entry counter and a growth threshold. Every
 key-bearing operation first asks the key-validation policy, fixed at
 construction here; `KeyValidation.Accepts` is the reference policy.
 */
module LongMapImpl {
  import opened Hashing
  import opened Buckets

  /** A call's outcome: a normal return, or one of the two exceptions the map raises. */
  datatype Result<T> = Ok(value: T) | InvalidKey | NoBucketWithSuchKey

  class LongMap<V(==)> {
    /** The validation policy: `validateKey` throws exactly when this is false. */
    const valid: int -> bool

    var hashTable: array<Slot<V>>
    var size: int
    var threshold: int

    /** Every stored key passed the policy when it was put. */
    ghost predicate AllAccepted(f: seq<Entry<V>>) {
      forall e | e in f :: valid(e.key)
    }

    /** The entries and the counter agree. */
    ghost predicate Stored()
      reads this, hashTable
    {
      && WellPlaced(hashTable[..])
      && size == |Flatten(hashTable[..])|
      && AllAccepted(Flatten(hashTable[..]))
    }

    /** The object invariant: `threshold` is three quarters of the capacity, and `size` stays below it. */
    ghost predicate Valid()
      reads this, hashTable
    {
      && Stored()
      && threshold * 4 == hashTable.Length * 3
      && size < threshold
    }

    /** A key the model covers: one the policy rejects, or one in the safe range. */
    predicate Covered(key: int) {
      InLong(key) && (valid(key) ==> SafeKey(key))
    }

    constructor (valid: int -> bool)
      ensures Valid() && fresh(hashTable) && this.valid == valid
      ensures hashTable.Length == 16 && threshold == 12 && size == 0
      ensures hashTable[..] == EmptyTable(16)
    {
      this.valid := valid;
      hashTable := new Slot<V>[16](_ => None);
      threshold := 12;
      size := 0;
      new;
      assert hashTable[..] == EmptyTable(16);
      FlattenEmptyTable<V>(16);
    }

    /**
     `put`: rejects an invalid key, grows the table first when `size + 1`
     reaches the threshold, then runs the insertion step.
     */
    method Put(key: int, value: V) returns (r: Result<Option<V>>)
      requires Valid() && Covered(key)
      modifies this, hashTable
      ensures Valid()
      ensures !valid(key) ==> && r == InvalidKey && hashTable == old(hashTable) && hashTable[..] == old(hashTable[..])
                              && size == old(size) && threshold == old(threshold)
      ensures valid(key) ==>
        var grew := old(size) + 1 >= old(threshold);
        var before := if grew then Grow(old(hashTable[..])) else old(hashTable[..]);
        && threshold == (if grew then 2 * old(threshold) else old(threshold))
        && (if grew then fresh(hashTable) else hashTable == old(hashTable))
        && hashTable[..] == Insert(before, key, value).table
        && r == Ok(Insert(before, key, value).returned)
      ensures valid(key) ==> forall k | SafeKey(k) ::
        Lookup(hashTable[..], k) == if k == key && r.value.Some? then Some(value) else Lookup(old(hashTable[..]), k)
      ensures valid(key) ==>
        size == old(size) + if Lookup(old(hashTable[..]), key).None? && r.value.Some? then 1 else 0
    {
      if !valid(key) {
        return InvalidKey;
      }
      ghost var s := hashTable[..];
      if size + 1 >= threshold {
        threshold := threshold * 2;
        ArrayDoubling();
        GrowKeepsEntries(s);
      }
      ghost var before := hashTable[..];
      var returned := InsertEntry(key, value);
      r := Ok(returned);
      InsertLookup(before, key, value);
      InsertSize(before, key, value);
      InsertMembers(before, key, value);
    }

    /** The insertion step of `put`, once the key is accepted and the table has room. */
    method InsertEntry(key: int, value: V) returns (returned: Option<V>)
      requires WellPlaced(hashTable[..]) && SafeKey(key) && size == |Flatten(hashTable[..])|
      modifies this`size, hashTable
      ensures hashTable[..] == Insert(old(hashTable[..]), key, value).table
      ensures returned == Insert(old(hashTable[..]), key, value).returned
      ensures size == |Flatten(hashTable[..])|
    {
      var index := Index(key, hashTable.Length);
      if hashTable[index].None? {
        returned := SimpleAdd(index, Entry(key, value));
        return;
      }
      var nodes := hashTable[index].value;
      for j := 0 to |nodes|
        invariant ScanPut(nodes, key, value, j) == ScanPut(nodes, key, value, 0)
      {
        if KeyExistButValueNew(nodes[j], key, value) {
          hashTable[index] := Some(nodes[j := Entry(key, value)]);
          FlattenUpdateLength(old(hashTable[..]), index, Some(nodes[j := Entry(key, value)]));
          return Some(value);
        }
        if ProcessCollision(nodes[j], key, value) {
          hashTable[index] := Some(nodes + [Entry(key, value)]);
          size := size + 1;
          FlattenUpdateLength(old(hashTable[..]), index, Some(nodes + [Entry(key, value)]));
          return Some(value);
        }
      }
      return None;
    }

    /** `simpleAdd`: a new bucket holding just the entry goes into the free slot, and `size` grows by one. */
    method SimpleAdd(index: int, entry: Entry<V>) returns (returned: Option<V>)
      requires 0 <= index < hashTable.Length && hashTable[index].None?
      requires size == |Flatten(hashTable[..])|
      modifies this`size, hashTable
      ensures hashTable[..] == old(hashTable[..])[index := Some([entry])]
      ensures size == old(size) + 1 == |Flatten(hashTable[..])|
      ensures returned == Some(entry.value)
    {
      hashTable[index] := Some([entry]);
      size := size + 1;
      FlattenUpdateLength(old(hashTable[..]), index, Some([entry]));
      returned := Some(entry.value);
    }

    /**
     `arrayDoubling`: a fresh table of twice the length, `size` recounted
     from 0, and every entry re-put in `keys()` order.
     */
    method ArrayDoubling()
      requires Stored() && size < threshold
      modifies this
      ensures fresh(hashTable) && hashTable[..] == Grow(old(hashTable[..]))
      ensures Stored() && size == old(size) && threshold == old(threshold)
    {
      var oldHashTable := hashTable;
      hashTable := new Slot<V>[oldHashTable.Length * 2](_ => None);
      size := 0;
      assert hashTable[..] == EmptyTable(2 * oldHashTable.Length);
      FlattenEmptyTable<V>(2 * oldHashTable.Length);
      RehashAll(oldHashTable);
      GrowAccepted(oldHashTable[..]);
    }

    /**
     The loops of `arrayDoubling` over the old table: each allocated slot's
     bucket is re-put in turn.
     */
    method RehashAll(oldHashTable: array<Slot<V>>)
      requires oldHashTable != hashTable && WellPlaced(oldHashTable[..])
      requires AllAccepted(Flatten(oldHashTable[..])) && |Flatten(oldHashTable[..])| < threshold
      requires hashTable[..] == EmptyTable(2 * oldHashTable.Length) && size == 0
      modifies this`size, hashTable
      ensures hashTable[..] == Grow(oldHashTable[..]) && size == |Flatten(hashTable[..])|
    {
      ghost var s := oldHashTable[..];
      ghost var empty := hashTable[..];
      FlattenEmptyTable<V>(2 * |s|);
      for i := 0 to oldHashTable.Length
        invariant hashTable[..] == Rehashed(empty, s, i)
        invariant size == |Flatten(hashTable[..])| <= |Flatten(s[..i])|
      {
        RehashedStep(empty, s, i);
        if oldHashTable[i].Some? {
          PutAll(oldHashTable[i].value);
        }
      }
      assert s[..|s|] == s;
    }

    /** Growth keeps the entries, so every key of the grown table was accepted too. */
    lemma GrowAccepted(s: seq<Slot<V>>)
      requires WellPlaced(s) && AllAccepted(Flatten(s))
      ensures |Flatten(Grow(s))| == |Flatten(s)| && AllAccepted(Flatten(Grow(s)))
    {
      forall e | e in Flatten(Grow(s))
        ensures valid(e.key)
      {
        GrowMember(s, e);
      }
      GrowKeepsEntries(s);
    }

    /**
     The inner loop of `arrayDoubling`: `put` each node of one old bucket.
     Every key passes validation again, and `size + 1` stays below the
     threshold, so each nested `put` is the insertion step alone.
     */
    method PutAll(nodes: seq<Entry<V>>)
      requires WellPlaced(hashTable[..]) && AllSafe(nodes) && AllAccepted(nodes)
      requires size == |Flatten(hashTable[..])| && size + |nodes| < threshold
      modifies this`size, hashTable
      ensures hashTable[..] == InsertAll(old(hashTable[..]), nodes)
      ensures size == |Flatten(hashTable[..])| <= old(size) + |nodes|
    {
      ghost var t := hashTable[..];
      for j := 0 to |nodes|
        invariant AllSafe(nodes[..j]) && hashTable[..] == InsertAll(t, nodes[..j])
        invariant size == |Flatten(hashTable[..])| <= old(size) + j
      {
        assert nodes[..j + 1] == nodes[..j] + [nodes[j]];
        InsertAllSnoc(t, nodes[..j], nodes[j]);
        assert nodes[j] in nodes;
        assert valid(nodes[j].key) && size + 1 < threshold;
        var _ := InsertEntry(nodes[j].key, nodes[j].value);
      }
      assert nodes[..|nodes|] == nodes;
    }

    /** `get`: the value of the first entry with the key in its slot, or `null`. */
    method Get(key: int) returns (r: Result<Option<V>>)
      requires Valid() && Covered(key)
      ensures !valid(key) ==> r == InvalidKey
      ensures valid(key) ==> r == Ok(Lookup(hashTable[..], key))
    {
      if !valid(key) {
        return InvalidKey;
      }
      var index := Index(key, hashTable.Length);
      if index < hashTable.Length && hashTable[index].Some? {
        var list := hashTable[index].value;
        for j := 0 to |list|
          invariant forall m | 0 <= m < j :: list[m].key != key
        {
          if list[j].key == key {
            return Ok(Some(list[j].value));
          }
        }
      }
      return Ok(None);
    }

    /**
     `remove`: rejects an invalid key, throws when the key's slot was never
     allocated, empties a one-entry bucket whatever its key, and otherwise
     unlinks the first entry with the key.
     */
    method Remove(key: int) returns (r: Result<Option<V>>)
      requires Valid() && Covered(key)
      modifies this`size, hashTable
      ensures Valid()
      ensures !valid(key) ==> r == InvalidKey && hashTable[..] == old(hashTable[..]) && size == old(size)
      ensures valid(key) ==>
        match Unlink(old(hashTable[..]), key)
        case NoBucket => r == NoBucketWithSuchKey && hashTable[..] == old(hashTable[..]) && size == old(size)
        case Removed(t, returned) => r == Ok(returned) && hashTable[..] == t
      ensures valid(key) && r.Ok? ==>
        && hashTable[..] == old(hashTable[..])[Index(key, hashTable.Length) := Some([])]
        && size == old(size) - (if r.value.Some? then 1 else 0)
        && forall k | SafeKey(k) :: Lookup(hashTable[..], k)
             == if Index(k, hashTable.Length) == Index(key, hashTable.Length) then None else Lookup(old(hashTable[..]), k)
    {
      if !valid(key) {
        return InvalidKey;
      }
      ghost var s := hashTable[..];
      var index := Index(key, hashTable.Length);
      if hashTable[index].None? {
        return NoBucketWithSuchKey;
      }
      UnlinkEffect(s, key);
      var nodes := hashTable[index].value;
      if |nodes| == 1 {
        var oldValue := nodes[0];
        hashTable[index] := Some([]);
        size := size - 1;
        r := Ok(Some(oldValue.value));
      } else {
        var returned := RemoveFromBucket(index, key);
        r := Ok(returned);
      }
      EmptiedAccepted(s, index);
    }

    /** Emptying a slot keeps every remaining key one the policy accepted. */
    lemma EmptiedAccepted(s: seq<Slot<V>>, i: int)
      requires 0 <= i < |s| && AllAccepted(Flatten(s))
      ensures AllAccepted(Flatten(s[i := Some([])]))
    {
      forall e | e in Flatten(s[i := Some([])])
        ensures valid(e.key)
      {
        FlattenMemberUpdate(s, i, Some([]), e);
      }
    }

    /** The multi-entry path of `remove`: unlink the first entry with the key from a bucket, if there is one. */
    method RemoveFromBucket(index: int, key: int) returns (returned: Option<V>)
      requires 0 <= index < hashTable.Length && hashTable[index].Some?
      requires size == |Flatten(hashTable[..])|
      modifies this`size, hashTable
      ensures var b := old(hashTable[index]).value;
        match FindKey(b, key, 0)
        case None => returned == None && hashTable[..] == old(hashTable[..]) && size == old(size)
        case Some(j) =>
          && returned == Some(b[j].value)
          && hashTable[..] == old(hashTable[..])[index := Some(b[..j] + b[j + 1..])]
          && size == old(size) - 1
      ensures size == |Flatten(hashTable[..])|
    {
      var nodeList := hashTable[index].value;
      for j := 0 to |nodeList|
        invariant FindKey(nodeList, key, j) == FindKey(nodeList, key, 0)
      {
        if nodeList[j].key == key {
          var oldValue := nodeList[j].value;
          hashTable[index] := Some(nodeList[..j] + nodeList[j + 1..]);
          size := size - 1;
          FlattenUpdateLength(old(hashTable[..]), index, Some(nodeList[..j] + nodeList[j + 1..]));
          return Some(oldValue);
        }
      }
      return None;
    }

    /** `isEmpty`: no entry is counted, which is exactly when `get` finds nothing for every key. */
    function IsEmpty(): (r: bool)
      reads this, hashTable
      requires Valid()
      ensures r <==> Keys() == []
      ensures r <==> forall k | SafeKey(k) :: Lookup(hashTable[..], k).None?
    {
      EmptyIffNoLookup(hashTable[..]);
      size == 0
    }

    /** `containsKey`: the key's slot holds an entry with that key, which is exactly when `get` finds a value. */
    function ContainsKey(key: int): (r: Result<bool>)
      reads this, hashTable
      requires Valid() && Covered(key)
      ensures !valid(key) ==> r == InvalidKey
      ensures valid(key) ==> r == Ok(Lookup(hashTable[..], key).Some?)
      ensures valid(key) ==> r == Ok(key in Keys())
    {
      if !valid(key) then InvalidKey
      else
        var index := Index(key, hashTable.Length);
        KeysComplete(hashTable[..]);
        if hashTable[index].Some? then Ok(exists e | e in hashTable[index].value :: e.key == key)
        else Ok(false)
    }

    /** `containsValue`: some entry of some allocated slot holds the value. */
    function ContainsValue(value: V): (r: bool)
      reads this, hashTable
      requires Valid()
      ensures r <==> value in Values()
      ensures r <==> exists k | SafeKey(k) :: Lookup(hashTable[..], k) == Some(value)
    {
      AnyValueIff(hashTable[..], value);
      ValuesComplete(hashTable[..], value);
      AnyValue(hashTable[..], value)
    }

    /** `keys()`: one key per entry, listed in slot order, each one found by `get`, none twice. */
    function Keys(): (r: seq<int>)
      reads this, hashTable
      requires Valid()
      ensures |r| == size
      ensures forall j | 0 <= j < |r| :: SafeKey(r[j])
      ensures forall k | SafeKey(k) :: k in r <==> Lookup(hashTable[..], k).Some?
      ensures forall j1, j2 | 0 <= j1 < j2 < |r| :: r[j1] != r[j2]
    {
      FlattenEntriesFound(hashTable[..]);
      KeysComplete(hashTable[..]);
      KeysOf(Flatten(hashTable[..]))
    }

    /** `values()`: one value per entry, in the same order as `keys()`, so position `j` holds the value of key `j`. */
    function Values(): (r: seq<V>)
      reads this, hashTable
      requires Valid()
      ensures |r| == size
      ensures forall j | 0 <= j < |r| :: Lookup(hashTable[..], Keys()[j]) == Some(r[j])
    {
      FlattenEntriesFound(hashTable[..]);
      ValuesOf(Flatten(hashTable[..]))
    }

    /** `size()`: the number of entries, which is the number of keys listed. */
    function Size(): (r: int)
      reads this, hashTable
      requires Valid()
      ensures r == |Keys()| && r >= 0
    {
      size
    }

    /** `clear`: every slot absent and `size` 0; the capacity and threshold stay as they were. */
    method Clear()
      requires Valid()
      modifies this`size, hashTable
      ensures Valid()
      ensures hashTable[..] == EmptyTable(hashTable.Length) && size == 0
      ensures forall k | SafeKey(k) :: Lookup(hashTable[..], k).None?
    {
      for bucket := 0 to hashTable.Length
        invariant forall m | 0 <= m < bucket :: hashTable[m].None?
      {
        hashTable[bucket] := None;
      }
      size := 0;
      assert hashTable[..] == EmptyTable(hashTable.Length);
      FlattenEmptyTable<V>(hashTable.Length);
      EmptyIffNoLookup(hashTable[..]);
    }
  }
}
