/**
 Concrete runs of `LongMapImpl` under the reference policy
 (`MapValidationStrategyImpl`), following the unit tests' sequence of
 calls and then the odd paths of `remove` and `put` on a shared slot.
 */
module Scenarios {
  import opened Hashing
  import opened Buckets
  import opened LongMapImpl
  import KeyValidation

  /** `testIsEmptyTrueCase`, and a negative key rejected before anything changes. */
  method RejectNegative() returns (rejected: Result<Option<string>>, empty: bool)
    ensures rejected == InvalidKey && empty
  {
    var m := new LongMap<string>(KeyValidation.Accepts);
    rejected := m.Put(-1, "x");
    empty := m.IsEmpty();
  }

  /** The map after `put(1, "value")`: key 1 in slot 0, every other slot absent. */
  method PutFirst() returns (m: LongMap<string>)
    ensures fresh(m) && fresh(m.hashTable) && m.Valid() && m.valid == KeyValidation.Accepts
    ensures m.hashTable[..] == EmptyTable<string>(16)[0 := Some([Entry(1, "value")])]
    ensures m.size == 1 && m.threshold == 12
  {
    m := new LongMap<string>(KeyValidation.Accepts);
    var _ := m.Put(1, "value");
    assert Index(1, 16) == 0;
    InsertCases(EmptyTable<string>(16), 1, "value");
  }

  /**
   `testPut`, `testGet`, `testGetNullCase`, `size` and `testRemoveException`:
   key 1 is found, key 2 is not, and key 2's slot 1 was never allocated.
   */
  method GetAfterPut() returns (got: Result<Option<string>>, absent: Result<Option<string>>,
                                count: int, noBucket: Result<Option<string>>)
    ensures got == Ok(Some("value")) && absent == Ok(None) && count == 1
    ensures noBucket == NoBucketWithSuchKey
  {
    var m := PutFirst();
    assert Index(2, 16) == 1;
    got := m.Get(1);
    absent := m.Get(2);
    count := m.Size();
    noBucket := m.Remove(2);
  }

  /** `testIsEmptyFalseCase` and the `containsKey` tests after `put(1, "value")`. */
  method ContainsKeyAfterPut() returns (empty: bool, hasKey: Result<bool>, hasOtherKey: Result<bool>)
    ensures !empty && hasKey == Ok(true) && hasOtherKey == Ok(false)
  {
    var m := PutFirst();
    assert Index(2, 16) == 1;
    empty := m.IsEmpty();
    hasKey := m.ContainsKey(1);
    hasOtherKey := m.ContainsKey(2);
  }

  /** Only slot 0 is allocated after `put(1, "value")`, so the one entry is key 1's. */
  lemma FirstEntries()
    ensures Flatten(EmptyTable<string>(16)[0 := Some([Entry(1, "value")])]) == [Entry(1, "value")]
  {
    var t := EmptyTable<string>(16)[0 := Some([Entry(1, "value")])];
    FlattenAbsentTail(t, 1);
    assert t[..1][..0] == [];
  }

  /**
   The `containsValue` tests after `put(1, "value")`: only the stored value is
   found. The false case of the tests passes the key `2L`; a map of strings
   cannot hold a `long`, so the absent string `"value2"` stands in for it.
   */
  method ContainsValueAfterPut() returns (hasValue: bool, hasOtherValue: bool)
    ensures hasValue && !hasOtherValue
  {
    var m := PutFirst();
    FirstEntries();
    assert ValuesOf([Entry(1, "value")]) == ["value"];
    hasValue := m.ContainsValue("value");
    hasOtherValue := m.ContainsValue("value2");
  }

  /**
   Keys 1 and 17 share slot 0. Removing 17 deletes key 1's entry, and the
   emptied slot then swallows the next `put` of key 1.
   */
  method SharedSlot() returns (removedOther: Result<Option<string>>, deadPut: Result<Option<string>>,
                               afterDeadPut: Result<Option<string>>)
    ensures removedOther == Ok(Some("value"))
    ensures deadPut == Ok(None) && afterDeadPut == Ok(None)
  {
    var m := PutFirst();
    assert Index(1, 16) == 0 && Index(17, 16) == 0;
    removedOther := m.Remove(17);
    assert m.hashTable[..] == EmptyTable<string>(16)[0 := Some([])];
    deadPut := m.Put(1, "value");
    afterDeadPut := m.Get(1);
  }

  /** The table `prepareMap` builds: key 1 in slot 0, key 2 in slot 1, every other slot absent. */
  function PreparedTable(): seq<Slot<string>> {
    EmptyTable<string>(16)[0 := Some([Entry(1, "value")])][1 := Some([Entry(2, "value2")])]
  }

  /** `prepareMap`: two puts into a fresh map leave the prepared table. */
  method PrepareMap() returns (m: LongMap<string>)
    ensures fresh(m) && fresh(m.hashTable) && m.Valid() && m.valid == KeyValidation.Accepts
    ensures m.hashTable[..] == PreparedTable() && m.size == 2 && m.threshold == 12
  {
    m := PutFirst();
    assert Index(2, 16) == 1;
    ghost var t1 := EmptyTable<string>(16)[0 := Some([Entry(1, "value")])];
    var _ := m.Put(2, "value2");
    InsertCases(t1, 2, "value2");
  }

  /** Only the first two slots of the prepared table are allocated, so its entries are key 1's, then key 2's. */
  lemma PreparedEntries()
    ensures Flatten(PreparedTable()) == [Entry(1, "value"), Entry(2, "value2")]
  {
    var t := PreparedTable();
    FlattenAbsentTail(t, 2);
    assert t[..2][..1] == [t[0]];
    assert [t[0]][..0] == [];
    assert Flatten([t[0]]) == [Entry(1, "value")];
    assert Flatten(t[..2]) == Flatten([t[0]]) + Items(t[1]);
  }

  /** `testKeys` and `testValues`: keys 1 and 2 are listed in slot order, with their values. */
  method KeysAndValues() returns (keys: seq<int>, values: seq<string>)
    ensures keys == [1, 2] && values == ["value", "value2"]
  {
    var m := PrepareMap();
    PreparedEntries();
    keys := m.Keys();
    values := m.Values();
  }

  /** `testRemove`: removing key 2 empties slot 1 and returns key 2's value. */
  method RemoveSecond() returns (removed: Result<Option<string>>)
    ensures removed == Ok(Some("value2"))
  {
    var m := PrepareMap();
    assert Index(2, 16) == 1;
    removed := m.Remove(2);
  }

  /** `clear`: after clearing, the map counts no entry and is empty. */
  method ClearPrepared() returns (count: int, empty: bool)
    ensures count == 0 && empty
  {
    var m := PrepareMap();
    m.Clear();
    count := m.Size();
    empty := m.IsEmpty();
  }
}
