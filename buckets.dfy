/**
 The hash table's slot array as a value: what `put`, `arrayDoubling`,
 `get` and `remove` of `LongMapImpl` do to it, and what that means for
 the key-to-value pairs it holds. The class in module LongMapImpl runs
 these steps in place on an array and is proved to agree with them.
 */
module Buckets {
  import opened Hashing

  datatype Option<T> = None | Some(value: T)

  /** One `Node` of a bucket list. Its cached hash is `HashCode(key)`. */
  datatype Entry<V> = Entry(key: int, value: V)

  /** A table slot: `null`, or the wrapper `Node` whose list holds the bucket. */
  type Slot<V> = Option<seq<Entry<V>>>

  /** The entries of a slot; an absent slot holds none. */
  function Items<V>(slot: Slot<V>): seq<Entry<V>> {
    if slot.Some? then slot.value else []
  }

  /**
   Every entry of the table: allocated slots in index order, each bucket in
   list order. This is the order of `keys()` and `values()`.
   */
  function Flatten<V>(s: seq<Slot<V>>): seq<Entry<V>> {
    if s == [] then [] else Flatten(s[..|s| - 1]) + Items(s[|s| - 1])
  }

  /** A fresh table: every slot absent. */
  function EmptyTable<V>(capacity: nat): seq<Slot<V>> {
    seq(capacity, _ => None)
  }

  /**
   The shape the map keeps for keys in the safe range: every allocated
   bucket holds at most one entry, and every entry sits in the slot its
   key hashes to.
   */
  ghost predicate WellPlaced<V>(s: seq<Slot<V>>) {
    && |s| > 0
    && (forall i | 0 <= i < |s| :: |Items(s[i])| <= 1)
    && (forall i, e | 0 <= i < |s| && e in Items(s[i]) :: SafeKey(e.key) && Index(e.key, |s|) == i)
  }

  /** No slot is allocated and empty (a state `remove` can leave behind). */
  ghost predicate NoDeadSlots<V>(s: seq<Slot<V>>) {
    forall i | 0 <= i < |s| && s[i].Some? :: s[i].value != []
  }

  /** The position of the first entry with `key` at or after `from`, if any. */
  function FindKey<V>(b: seq<Entry<V>>, key: int, from: nat): (r: Option<nat>)
    requires from <= |b|
    ensures r.Some? ==> from <= r.value < |b| && b[r.value].key == key
    ensures r.Some? ==> forall m | from <= m < r.value :: b[m].key != key
    ensures r.None? ==> forall m | from <= m < |b| :: b[m].key != key
    decreases |b| - from
  {
    if from == |b| then None
    else if b[from].key == key then Some(from)
    else FindKey(b, key, from + 1)
  }

  /** What `get` returns: the value of the first entry with `key` in its slot, or `null`. */
  function Lookup<V>(s: seq<Slot<V>>, key: int): Option<V>
    requires |s| > 0 && SafeKey(key)
  {
    var i := Index(key, |s|);
    if s[i].None? then None
    else match FindKey(s[i].value, key, 0)
      case None => None
      case Some(j) => Some(s[i].value[j].value)
  }

  /** An entry is in the table exactly when it is in one of its slots. */
  lemma {:induction false} FlattenMember<V>(s: seq<Slot<V>>, e: Entry<V>)
    ensures e in Flatten(s) <==> exists i :: 0 <= i < |s| && e in Items(s[i])
  {
    if s != [] {
      var p := s[..|s| - 1];
      FlattenMember(p, e);
      if e in Flatten(p) {
        var i :| 0 <= i < |p| && e in Items(p[i]);
        assert s[i] == p[i];
      }
      if exists i :: 0 <= i < |s| && e in Items(s[i]) {
        var i :| 0 <= i < |s| && e in Items(s[i]);
        if i < |p| {
          assert p[i] == s[i];
        }
      }
    }
  }

  /** Absent slots contribute nothing: a table whose slots from `n` on are absent lists only its first `n` slots' entries. */
  lemma {:induction false} FlattenAbsentTail<V>(s: seq<Slot<V>>, n: nat)
    requires n <= |s| && forall i | n <= i < |s| :: s[i].None?
    ensures Flatten(s) == Flatten(s[..n])
    decreases |s| - n
  {
    if n < |s| {
      var p := s[..|s| - 1];
      FlattenAbsentTail(p, n);
      assert p[..n] == s[..n];
    } else {
      assert s[..n] == s;
    }
  }

  /** Replacing one slot trades that slot's entry count for the new one's. */
  lemma {:induction false} FlattenUpdateLength<V>(s: seq<Slot<V>>, i: int, x: Slot<V>)
    requires 0 <= i < |s|
    ensures |Flatten(s[i := x])| + |Items(s[i])| == |Flatten(s)| + |Items(x)|
  {
    var n := |s|;
    var p, t := s[..n - 1], s[i := x];
    if i == n - 1 {
      assert t[..n - 1] == p;
    } else {
      assert t[..n - 1] == p[i := x];
      FlattenUpdateLength(p, i, x);
    }
  }

  /**
   In a well-placed table, `get` finds `v` for `key` exactly when the entry
   `(key, v)` is stored somewhere.
   */
  lemma LookupMember<V>(s: seq<Slot<V>>, key: int, v: V)
    requires WellPlaced(s) && SafeKey(key)
    ensures Lookup(s, key) == Some(v) <==> Entry(key, v) in Flatten(s)
  {
    var i := Index(key, |s|);
    FlattenMember(s, Entry(key, v));
    if Entry(key, v) in Flatten(s) {
      var j :| 0 <= j < |s| && Entry(key, v) in Items(s[j]);
      assert j == i;
      assert s[i].value == [Entry(key, v)];
    }
    if Lookup(s, key) == Some(v) {
      assert Entry(key, v) in Items(s[i]);
    }
  }

  /** `keyExistButValueNew`: the node holds the key with a different value, so `put` overwrites it. */
  predicate KeyExistButValueNew<V(==)>(node: Entry<V>, key: int, value: V) {
    node.key == key && node.value != value
  }

  /** `processCollision`: equal hash codes, a different key and a different value, so `put` appends. */
  predicate ProcessCollision<V(==)>(node: Entry<V>, key: int, value: V)
    requires InLong(node.key) && InLong(key)
  {
    HashCode(key) == HashCode(node.key) && key != node.key && value != node.value
  }

  /** Outcome of `put`'s scan of an allocated bucket: the changed bucket, or nothing done. */
  datatype Scan<V> = Placed(bucket: seq<Entry<V>>) | Skipped

  /**
   The scan from node `from` stops at node `m`: no earlier node has the key
   with a new value or collides, and `nb` is node `m` overwritten, or the
   bucket with the new entry appended after a collision.
   */
  predicate FirstMatch<V(==)>(b: seq<Entry<V>>, key: int, value: V, from: nat, m: int, nb: seq<Entry<V>>)
    requires from <= m < |b| && InLong(key) && forall e | e in b :: InLong(e.key)
  {
    && (forall m' | from <= m' < m :: !KeyExistButValueNew(b[m'], key, value) && !ProcessCollision(b[m'], key, value))
    && if KeyExistButValueNew(b[m], key, value) then nb == b[m := Entry(key, value)]
       else ProcessCollision(b[m], key, value) && nb == b + [Entry(key, value)]
  }

  /** `put`'s loop over the bucket list, from node `from` on. */
  function ScanPut<V(==)>(b: seq<Entry<V>>, key: int, value: V, from: nat): (r: Scan<V>)
    requires from <= |b| && InLong(key) && forall e | e in b :: InLong(e.key)
    ensures r.Skipped? <==> forall m | from <= m < |b| ::
      !KeyExistButValueNew(b[m], key, value) && !ProcessCollision(b[m], key, value)
    ensures r.Placed? ==> Entry(key, value) in r.bucket && |b| <= |r.bucket| <= |b| + 1
    ensures r.Placed? ==> exists m | from <= m < |b| :: FirstMatch(b, key, value, from, m, r.bucket)
    decreases |b| - from
  {
    if from == |b| then Skipped
    else if KeyExistButValueNew(b[from], key, value) then
      var nb := b[from := Entry(key, value)];
      assert nb[from] == Entry(key, value);
      assert FirstMatch(b, key, value, from, from, nb);
      Placed(nb)
    else if ProcessCollision(b[from], key, value) then
      assert FirstMatch(b, key, value, from, from, b + [Entry(key, value)]);
      Placed(b + [Entry(key, value)])
    else
      var r := ScanPut(b, key, value, from + 1);
      assert r.Placed? ==> exists m | from <= m < |b| :: FirstMatch(b, key, value, from, m, r.bucket) by {
        if r.Placed? {
          var m :| from + 1 <= m < |b| && FirstMatch(b, key, value, from + 1, m, r.bucket);
          assert FirstMatch(b, key, value, from, m, r.bucket);
        }
      }
      r
  }

  /** The table after `put`'s insertion step, and what `put` returns. */
  datatype Stored<V> = Stored(table: seq<Slot<V>>, returned: Option<V>)

  /**
   The insertion step of `put`, after the growth check: a free slot gets a new
   bucket holding the entry (`simpleAdd`); an allocated one is scanned.
   */
  function Insert<V(==)>(s: seq<Slot<V>>, key: int, value: V): (r: Stored<V>)
    requires WellPlaced(s) && SafeKey(key)
    ensures |r.table| == |s| && WellPlaced(r.table)
  {
    var i := Index(key, |s|);
    match s[i]
    case None => Stored(s[i := Some([Entry(key, value)])], Some(value))
    case Some(b) =>
      SafeBucketScan(s, key, value);
      match ScanPut(b, key, value, 0)
      case Skipped => Stored(s, None)
      case Placed(nb) => Stored(s[i := Some(nb)], Some(value))
  }

  /**
   In a well-placed table the scan only ever overwrites the single entry
   with the same key: `processCollision` cannot fire for safe keys.
   */
  lemma SafeBucketScan<V>(s: seq<Slot<V>>, key: int, value: V)
    requires WellPlaced(s) && SafeKey(key) && s[Index(key, |s|)].Some?
    ensures var b := s[Index(key, |s|)].value;
      ScanPut(b, key, value, 0)
        == if b != [] && KeyExistButValueNew(b[0], key, value) then Placed([Entry(key, value)]) else Skipped
  {
    var b := s[Index(key, |s|)].value;
    if b != [] {
      assert b[0] in Items(s[Index(key, |s|)]);
      SafeHashCodeInjective(key, b[0].key);
    }
  }

  /**
   The cases of `put` once the table has room: a free slot gets a bucket
   holding exactly the new entry; the same key with a new value is
   overwritten; the same key with an equal value, a slot taken by another
   key and an emptied slot all leave the table as it was and return `null`.
   */
  lemma InsertCases<V>(s: seq<Slot<V>>, key: int, value: V)
    requires WellPlaced(s) && SafeKey(key)
    ensures var i, r := Index(key, |s|), Insert(s, key, value);
      && (s[i].None? ==> r == Stored(s[i := Some([Entry(key, value)])], Some(value)))
      && (Lookup(s, key).Some? && Lookup(s, key).value != value ==>
            r == Stored(s[i := Some([Entry(key, value)])], Some(value)))
      && (Lookup(s, key) == Some(value) ==> r == Stored(s, None))
      && (s[i].Some? && Lookup(s, key).None? ==> r == Stored(s, None))
  {
    var i := Index(key, |s|);
    if s[i].Some? {
      SafeBucketScan(s, key, value);
      var b := s[i].value;
      if b != [] {
        assert b == [b[0]];
        assert b[0] in Items(s[i]);
      }
    }
  }

  /**
   After the insertion step `get` answers the new value for `key` when
   `put` returned non-null, and the old answer for every other key.
   */
  lemma InsertLookup<V>(s: seq<Slot<V>>, key: int, value: V)
    requires WellPlaced(s) && SafeKey(key)
    ensures var r := Insert(s, key, value);
      forall k | SafeKey(k) ::
        Lookup(r.table, k) == if k == key && r.returned.Some? then Some(value) else Lookup(s, k)
  {
    var i, r := Index(key, |s|), Insert(s, key, value);
    InsertCases(s, key, value);
    forall k | SafeKey(k)
      ensures Lookup(r.table, k) == if k == key && r.returned.Some? then Some(value) else Lookup(s, k)
    {
      if r.returned.Some? && Index(k, |s|) == i && k != key {
        if s[i].Some? && s[i].value != [] {
          assert s[i].value[0] in Items(s[i]);
        }
      }
    }
  }

  /** The insertion step adds one entry exactly when it stores a key that was absent. */
  lemma InsertSize<V>(s: seq<Slot<V>>, key: int, value: V)
    requires WellPlaced(s) && SafeKey(key)
    ensures var r := Insert(s, key, value);
      |Flatten(r.table)| == |Flatten(s)| + if Lookup(s, key).None? && r.returned.Some? then 1 else 0
  {
    var i := Index(key, |s|);
    InsertCases(s, key, value);
    FlattenUpdateLength(s, i, Some([Entry(key, value)]));
    if Lookup(s, key).Some? {
      assert s[i].value == [s[i].value[0]];
    }
  }

  /** Replacing one slot can only bring in the new slot's entries. */
  lemma FlattenMemberUpdate<V>(s: seq<Slot<V>>, i: int, x: Slot<V>, e: Entry<V>)
    requires 0 <= i < |s|
    ensures e in Flatten(s[i := x]) ==> e in Flatten(s) || e in Items(x)
  {
    var t := s[i := x];
    FlattenMember(s, e);
    FlattenMember(t, e);
    if e in Flatten(t) {
      var j :| 0 <= j < |t| && e in Items(t[j]);
      if j != i {
        assert e in Items(s[j]);
      }
    }
  }

  /** The insertion step stores no entry other than the one it was given. */
  lemma InsertMembers<V>(s: seq<Slot<V>>, key: int, value: V)
    requires WellPlaced(s) && SafeKey(key)
    ensures forall e | e in Flatten(Insert(s, key, value).table) :: e in Flatten(s) || e == Entry(key, value)
  {
    var i := Index(key, |s|);
    InsertCases(s, key, value);
    forall e | e in Flatten(Insert(s, key, value).table)
      ensures e in Flatten(s) || e == Entry(key, value)
    {
      FlattenMemberUpdate(s, i, Some([Entry(key, value)]), e);
    }
  }

  /** The entries of two tables side by side are the first table's, then the second's. */
  lemma {:induction false} FlattenAppend<V>(a: seq<Slot<V>>, b: seq<Slot<V>>)
    ensures Flatten(a + b) == Flatten(a) + Flatten(b)
    decreases |b|
  {
    if b != [] {
      var n := |b|;
      assert (a + b)[..|a + b| - 1] == a + b[..n - 1];
      FlattenAppend(a, b[..n - 1]);
    } else {
      assert a + b == a;
    }
  }

  /** Every entry of `es` has a safe key. */
  ghost predicate AllSafe<V>(es: seq<Entry<V>>) {
    forall j | 0 <= j < |es| :: SafeKey(es[j].key)
  }

  /** Entries of a well-placed table all have safe keys. */
  lemma FlattenSafeKeys<V>(s: seq<Slot<V>>)
    requires WellPlaced(s)
    ensures AllSafe(Flatten(s))
  {
    var f := Flatten(s);
    forall j | 0 <= j < |f|
      ensures SafeKey(f[j].key)
    {
      FlattenMember(s, f[j]);
    }
  }

  /** A table with no allocated slot holds no entry. */
  lemma FlattenEmptyTable<V>(capacity: nat)
    ensures Flatten(EmptyTable<V>(capacity)) == []
    ensures capacity > 0 ==> WellPlaced(EmptyTable<V>(capacity))
  {
    var t := EmptyTable<V>(capacity);
    if Flatten(t) != [] {
      FlattenMember(t, Flatten(t)[0]);
    }
  }

  /** Re-putting entries one after another into a table, as `arrayDoubling` does. */
  function InsertAll<V(==)>(t: seq<Slot<V>>, es: seq<Entry<V>>): (r: seq<Slot<V>>)
    requires WellPlaced(t) && AllSafe(es)
    ensures |r| == |t| && WellPlaced(r)
    decreases |es|
  {
    if es == [] then t else InsertAll(Insert(t, es[0].key, es[0].value).table, es[1..])
  }

  /** `arrayDoubling`: every entry, in `keys()` order, re-put into a fresh table twice the size. */
  function Grow<V(==)>(s: seq<Slot<V>>): (r: seq<Slot<V>>)
    requires WellPlaced(s)
    ensures |r| == 2 * |s| && WellPlaced(r)
  {
    FlattenSafeKeys(s);
    InsertAll(EmptyTable(2 * |s|), Flatten(s))
  }

  /** Re-putting `a` and then `b` is re-putting `a + b`. */
  lemma {:induction false} InsertAllAppend<V>(t: seq<Slot<V>>, a: seq<Entry<V>>, b: seq<Entry<V>>)
    requires WellPlaced(t) && AllSafe(a) && AllSafe(b)
    ensures AllSafe(a + b) && InsertAll(t, a + b) == InsertAll(InsertAll(t, a), b)
    decreases |a|
  {
    assert AllSafe(a + b) by {
      forall j | 0 <= j < |a + b|
        ensures SafeKey((a + b)[j].key)
      {
        if j >= |a| {
          assert (a + b)[j] == b[j - |a|];
        }
      }
    }
    if a == [] {
      assert a + b == b;
    } else {
      assert (a + b)[1..] == a[1..] + b;
      InsertAllAppend(Insert(t, a[0].key, a[0].value).table, a[1..], b);
    }
  }

  /** Re-putting one more entry is one more insertion step, which adds at most one entry. */
  lemma InsertAllSnoc<V>(t: seq<Slot<V>>, es: seq<Entry<V>>, e: Entry<V>)
    requires WellPlaced(t) && AllSafe(es) && SafeKey(e.key)
    ensures AllSafe(es + [e])
    ensures InsertAll(t, es + [e]) == Insert(InsertAll(t, es), e.key, e.value).table
    ensures |Flatten(InsertAll(t, es + [e]))| <= |Flatten(InsertAll(t, es))| + 1
  {
    var u := InsertAll(t, es);
    InsertAllAppend(t, es, [e]);
    assert InsertAll(u, [e]) == InsertAll(Insert(u, e.key, e.value).table, []);
    InsertSize(u, e.key, e.value);
  }

  /** Filling an absent slot adds exactly that slot's entries to the table. */
  lemma FlattenMemberFill<V>(s: seq<Slot<V>>, i: int, x: Slot<V>, e: Entry<V>)
    requires 0 <= i < |s| && s[i].None?
    ensures e in Flatten(s[i := x]) <==> e in Flatten(s) || e in Items(x)
  {
    var t := s[i := x];
    FlattenMember(s, e);
    FlattenMember(t, e);
    if e in Flatten(t) {
      var j :| 0 <= j < |t| && e in Items(t[j]);
      if j != i {
        assert e in Items(s[j]);
      }
    }
    if e in Flatten(s) {
      var j :| 0 <= j < |s| && e in Items(s[j]);
      assert e in Items(t[j]);
    }
    if e in Items(x) {
      assert e in Items(t[i]);
    }
  }

  /** The entries `es` have safe keys that go to pairwise distinct slots of a `capacity`-slot table. */
  ghost predicate DistinctSlots<V>(es: seq<Entry<V>>, capacity: int) {
    && capacity > 0
    && AllSafe(es)
    && (forall j1, j2 | 0 <= j1 < j2 < |es| :: Index(es[j1].key, capacity) != Index(es[j2].key, capacity))
  }

  /** Putting an entry into a free slot allocates a bucket holding just that entry. */
  lemma InsertIntoFreeSlot<V>(t: seq<Slot<V>>, e0: Entry<V>)
    requires WellPlaced(t) && SafeKey(e0.key) && t[Index(e0.key, |t|)].None?
    ensures var t' := Insert(t, e0.key, e0.value).table;
      && t' == t[Index(e0.key, |t|) := Some([e0])]
      && |Flatten(t')| == |Flatten(t)| + 1
      && (forall e :: e in Flatten(t') <==> e in Flatten(t) || e == e0)
      && (NoDeadSlots(t) ==> NoDeadSlots(t'))
  {
    var i := Index(e0.key, |t|);
    InsertCases(t, e0.key, e0.value);
    FlattenUpdateLength(t, i, Some([e0]));
    forall e
      ensures e in Flatten(t[i := Some([e0])]) <==> e in Flatten(t) || e == e0
    {
      FlattenMemberFill(t, i, Some([e0]), e);
    }
  }

  /**
   Entries whose slots are free and pairwise distinct are all kept by
   re-putting: nothing is dropped, and every slot they allocate holds one.
   */
  lemma {:induction false} InsertAllFresh<V>(t: seq<Slot<V>>, es: seq<Entry<V>>)
    requires WellPlaced(t) && AllSafe(es)
    requires forall j | 0 <= j < |es| :: t[Index(es[j].key, |t|)].None?
    requires DistinctSlots(es, |t|)
    ensures |Flatten(InsertAll(t, es))| == |Flatten(t)| + |es|
    ensures forall e :: e in Flatten(InsertAll(t, es)) <==> e in Flatten(t) || e in es
    ensures NoDeadSlots(t) ==> NoDeadSlots(InsertAll(t, es))
    decreases |es|
  {
    if es != [] {
      var e0, rest := es[0], es[1..];
      var i := Index(e0.key, |t|);
      var t' := Insert(t, e0.key, e0.value).table;
      InsertIntoFreeSlot(t, e0);
      assert InsertAll(t, es) == InsertAll(t', rest);
      forall j | 0 <= j < |rest|
        ensures t'[Index(rest[j].key, |t'|)].None?
      {
        assert rest[j] == es[j + 1];
      }
      forall j1, j2 | 0 <= j1 < j2 < |rest|
        ensures Index(rest[j1].key, |t'|) != Index(rest[j2].key, |t'|)
      {
        assert rest[j1] == es[j1 + 1] && rest[j2] == es[j2 + 1];
      }
      InsertAllFresh(t', rest);
      assert forall e :: e in es <==> e == e0 || e in rest;
    }
  }

  /** The entries `f` have safe keys, lie in slots below `n` of a `capacity`-slot table, and in distinct slots. */
  ghost predicate DistinctSlotsBelow<V>(f: seq<Entry<V>>, capacity: int, n: int) {
    && DistinctSlots(f, capacity)
    && (forall j | 0 <= j < |f| :: Index(f[j].key, capacity) < n)
  }

  /** The entries of the first `n` slots of a well-placed table lie in distinct slots below `n`. */
  lemma {:induction false} FlattenPrefixSlots<V>(s: seq<Slot<V>>, n: nat)
    requires WellPlaced(s) && n <= |s|
    ensures DistinctSlotsBelow(Flatten(s[..n]), |s|, n)
  {
    if n > 0 {
      var f, g := Flatten(s[..n]), Flatten(s[..n - 1]);
      FlattenPrefixSlots(s, n - 1);
      assert DistinctSlotsBelow(g, |s|, n - 1);
      assert s[..n][..n - 1] == s[..n - 1];
      assert f == g + Items(s[n - 1]);
      forall j | |g| <= j < |f|
        ensures SafeKey(f[j].key) && Index(f[j].key, |s|) == n - 1
      {
        assert f[j] in Items(s[n - 1]);
      }
      forall j | 0 <= j < |g|
        ensures f[j] == g[j]
      {
      }
    }
  }

  /** `arrayDoubling` part way: the entries of the first `i` slots of `s` re-put into `t`. */
  function Rehashed<V(==)>(t: seq<Slot<V>>, s: seq<Slot<V>>, i: int): (r: seq<Slot<V>>)
    requires WellPlaced(t) && WellPlaced(s) && 0 <= i <= |s|
    ensures |r| == |t| && WellPlaced(r)
  {
    FlattenPrefixSlots(s, i);
    InsertAll(t, Flatten(s[..i]))
  }

  /**
   One more slot of the old table: its bucket is re-put after the earlier
   ones, its entries are entries of the old table, and the entries visited
   so far never outnumber the old table's.
   */
  lemma RehashedStep<V>(t: seq<Slot<V>>, s: seq<Slot<V>>, i: int)
    requires WellPlaced(t) && WellPlaced(s) && 0 <= i < |s|
    ensures AllSafe(Items(s[i])) && (forall e | e in Items(s[i]) :: e in Flatten(s))
    ensures Rehashed(t, s, i + 1) == InsertAll(Rehashed(t, s, i), Items(s[i]))
    ensures |Flatten(s[..i])| + |Items(s[i])| == |Flatten(s[..i + 1])| <= |Flatten(s)|
  {
    var p, b := Flatten(s[..i]), Items(s[i]);
    assert s[..i + 1][..i] == s[..i];
    assert Flatten(s[..i + 1]) == p + b;
    forall e | e in b
      ensures e in Flatten(s) && SafeKey(e.key)
    {
      FlattenMember(s, e);
    }
    FlattenPrefixSlots(s, i);
    InsertAllAppend(t, p, b);
    assert s == s[..i + 1] + s[i + 1..];
    FlattenAppend(s[..i + 1], s[i + 1..]);
  }

  /** Two well-placed tables holding the same entries answer `get` alike. */
  lemma SameEntriesSameLookup<V>(a: seq<Slot<V>>, b: seq<Slot<V>>)
    requires WellPlaced(a) && WellPlaced(b)
    requires forall e :: e in Flatten(a) <==> e in Flatten(b)
    ensures forall k | SafeKey(k) :: Lookup(a, k) == Lookup(b, k)
  {
    forall k | SafeKey(k)
      ensures Lookup(a, k) == Lookup(b, k)
    {
      if Lookup(a, k).Some? {
        LookupMember(a, k, Lookup(a, k).value);
        LookupMember(b, k, Lookup(a, k).value);
      } else if Lookup(b, k).Some? {
        LookupMember(a, k, Lookup(b, k).value);
        LookupMember(b, k, Lookup(b, k).value);
      }
    }
  }

  /** The entries of a well-placed table go to pairwise distinct slots of the doubled table. */
  lemma DoubledSlotsDistinct<V>(s: seq<Slot<V>>)
    requires WellPlaced(s)
    ensures DistinctSlots(Flatten(s), 2 * |s|)
  {
    var f := Flatten(s);
    FlattenSafeKeys(s);
    FlattenPrefixSlots(s, |s|);
    assert s[..|s|] == s;
    assert DistinctSlotsBelow(f, |s|, |s|);
    forall j1, j2 | 0 <= j1 < j2 < |f|
      ensures Index(f[j1].key, 2 * |s|) != Index(f[j2].key, 2 * |s|)
    {
      if Index(f[j1].key, 2 * |s|) == Index(f[j2].key, 2 * |s|) {
        IndexDoubling(f[j1].key, f[j2].key, |s|);
      }
    }
  }

  /**
   Growth loses nothing: the doubled table holds exactly the same entries,
   `get` answers as before for every key, and allocated-but-empty slots
   are gone.
   */
  lemma GrowKeepsEntries<V>(s: seq<Slot<V>>)
    requires WellPlaced(s)
    ensures |Flatten(Grow(s))| == |Flatten(s)|
    ensures forall e :: e in Flatten(Grow(s)) <==> e in Flatten(s)
    ensures NoDeadSlots(Grow(s))
    ensures forall k | SafeKey(k) :: Lookup(Grow(s), k) == Lookup(s, k)
  {
    var f, t := Flatten(s), EmptyTable<V>(2 * |s|);
    DoubledSlotsDistinct(s);
    FlattenEmptyTable<V>(2 * |s|);
    InsertAllFresh(t, f);
    assert Grow(s) == InsertAll(t, f);
    SameEntriesSameLookup(Grow(s), s);
  }

  /** Every entry of the grown table was an entry of the old one. */
  lemma GrowMember<V>(s: seq<Slot<V>>, e: Entry<V>)
    requires WellPlaced(s) && e in Flatten(Grow(s))
    ensures e in Flatten(s)
  {
    GrowKeepsEntries(s);
  }

  /** Each listed entry is what `get` finds for its key, and no key is listed twice. */
  lemma FlattenEntriesFound<V>(s: seq<Slot<V>>)
    requires WellPlaced(s)
    ensures var f := Flatten(s);
      && AllSafe(f)
      && (forall j | 0 <= j < |f| :: Lookup(s, f[j].key) == Some(f[j].value))
      && (forall j1, j2 | 0 <= j1 < j2 < |f| :: f[j1].key != f[j2].key)
  {
    var f := Flatten(s);
    FlattenPrefixSlots(s, |s|);
    assert s[..|s|] == s;
    assert DistinctSlots(f, |s|);
    forall j | 0 <= j < |f|
      ensures Lookup(s, f[j].key) == Some(f[j].value)
    {
      LookupMember(s, f[j].key, f[j].value);
    }
  }

  /** What `remove` does to the table and returns, or that it throws `NoBucketWithSuchKeyException`. */
  datatype Removal<V> = NoBucket | Removed(table: seq<Slot<V>>, returned: Option<V>)

  /**
   The body of `remove` once the key is accepted: no bucket throws; a one-entry bucket loses
   that entry whatever its key; otherwise the first entry with the key is
   unlinked, if there is one.
   */
  function Unlink<V>(s: seq<Slot<V>>, key: int): (r: Removal<V>)
    requires |s| > 0 && SafeKey(key)
    ensures r.NoBucket? <==> s[Index(key, |s|)].None?
    ensures r.Removed? ==> |r.table| == |s|
    ensures r.Removed? ==> forall j | 0 <= j < |s| && j != Index(key, |s|) :: r.table[j] == s[j]
    ensures r.Removed? && r.returned.Some? ==>
      exists e | e in Items(s[Index(key, |s|)]) :: e.value == r.returned.value
    ensures r.Removed? && r.returned.None? ==> r.table == s
  {
    var i := Index(key, |s|);
    match s[i]
    case None => NoBucket
    case Some(b) =>
      if |b| == 1 then Removed(s[i := Some([])], Some(b[0].value))
      else match FindKey(b, key, 0)
        case None => Removed(s, None)
        case Some(j) => Removed(s[i := Some(b[..j] + b[j + 1..])], Some(b[j].value))
  }

  /**
   In a well-placed table `remove` throws exactly when the key's slot was
   never allocated; otherwise it empties that slot (leaving it allocated),
   so `get` finds nothing for any key of that slot and answers as before
   for all others, and the entry count drops by one exactly when a value
   is returned.
   */
  lemma UnlinkEffect<V>(s: seq<Slot<V>>, key: int)
    requires WellPlaced(s) && SafeKey(key)
    ensures var i, r := Index(key, |s|), Unlink(s, key);
      && (r.NoBucket? <==> s[i].None?)
      && (r.Removed? ==> r.table == s[i := Some([])] && WellPlaced(r.table))
      && (r.Removed? ==> forall k | SafeKey(k) ::
            Lookup(r.table, k) == if Index(k, |s|) == i then None else Lookup(s, k))
      && (r.Removed? ==> |Flatten(r.table)| + (if r.returned.Some? then 1 else 0) == |Flatten(s)|)
  {
    var i, r := Index(key, |s|), Unlink(s, key);
    if r.Removed? {
      var b := s[i].value;
      if b != [] {
        assert b == [b[0]];
      }
      FlattenUpdateLength(s, i, Some([]));
    }
  }

  /**
   What `remove` returns: the key's value when the key is stored; and
   whenever it returns a value, that value belonged to some key sharing
   the slot, which need not be the requested one.
   */
  lemma UnlinkReturns<V>(s: seq<Slot<V>>, key: int)
    requires WellPlaced(s) && SafeKey(key)
    ensures var i, r := Index(key, |s|), Unlink(s, key);
      && (Lookup(s, key).Some? ==> r == Removed(s[i := Some([])], Lookup(s, key)))
      && (r.Removed? && r.returned.Some? ==>
            exists k :: SafeKey(k) && Index(k, |s|) == i && Lookup(s, k) == r.returned)
      && (r.Removed? && r.returned.None? ==> s[i] == Some([]))
  {
    var i, r := Index(key, |s|), Unlink(s, key);
    if r.Removed? && s[i].value != [] {
      var e := s[i].value[0];
      assert s[i].value == [e];
      assert e in Items(s[i]);
      assert Lookup(s, e.key) == Some(e.value);
    }
  }

  /**
   A one-entry bucket is emptied whatever key is asked for: keys 0 and 16
   share slot 15 of a 16-slot table, and removing 16 deletes key 0.
   */
  lemma UnlinkIgnoresKey<V>(v: V)
    ensures var t := Insert(EmptyTable<V>(16), 0, v).table;
      && Lookup(t, 0) == Some(v) && Lookup(t, 16).None?
      && Unlink(t, 16).Removed? && Unlink(t, 16).returned == Some(v)
      && Lookup(Unlink(t, 16).table, 0).None?
  {
    var e := EmptyTable<V>(16);
    assert Index(0, 16) == 15 && Index(16, 16) == 15;
    InsertCases(e, 0, v);
  }

  /** `keys()`: the key of every entry, in table order. */
  function KeysOf<V>(f: seq<Entry<V>>): seq<int> {
    seq(|f|, j requires 0 <= j < |f| => f[j].key)
  }

  /** `values()`: the value of every entry, in table order. */
  function ValuesOf<V>(f: seq<Entry<V>>): seq<V> {
    seq(|f|, j requires 0 <= j < |f| => f[j].value)
  }

  /** `containsValue`'s stream: some entry of some allocated slot holds `value`. */
  predicate AnyValue<V(==)>(s: seq<Slot<V>>, value: V) {
    exists i, e | 0 <= i < |s| && e in Items(s[i]) :: e.value == value
  }

  /** `containsValue` is true exactly when `value` is among `values()`. */
  lemma AnyValueIff<V>(s: seq<Slot<V>>, value: V)
    ensures AnyValue(s, value) <==> value in ValuesOf(Flatten(s))
  {
    var f := Flatten(s);
    if AnyValue(s, value) {
      var i, e :| 0 <= i < |s| && e in Items(s[i]) && e.value == value;
      FlattenMember(s, e);
      var j :| 0 <= j < |f| && f[j] == e;
      assert ValuesOf(f)[j] == value;
    }
    if value in ValuesOf(f) {
      var j :| 0 <= j < |f| && ValuesOf(f)[j] == value;
      FlattenMember(s, f[j]);
    }
  }

  /** `keys()` lists exactly the keys `get` finds a value for. */
  lemma KeysComplete<V>(s: seq<Slot<V>>)
    requires WellPlaced(s)
    ensures forall k | SafeKey(k) :: k in KeysOf(Flatten(s)) <==> Lookup(s, k).Some?
  {
    var f := Flatten(s);
    FlattenEntriesFound(s);
    forall k | SafeKey(k)
      ensures k in KeysOf(f) <==> Lookup(s, k).Some?
    {
      if k in KeysOf(f) {
        var j :| 0 <= j < |f| && KeysOf(f)[j] == k;
        assert Lookup(s, f[j].key) == Some(f[j].value);
      }
      if Lookup(s, k).Some? {
        LookupMember(s, k, Lookup(s, k).value);
        var j :| 0 <= j < |f| && f[j] == Entry(k, Lookup(s, k).value);
        assert KeysOf(f)[j] == k;
      }
    }
  }

  /** `values()` lists exactly the values `get` answers for some key. */
  lemma ValuesComplete<V>(s: seq<Slot<V>>, value: V)
    requires WellPlaced(s)
    ensures value in ValuesOf(Flatten(s)) <==> exists k | SafeKey(k) :: Lookup(s, k) == Some(value)
  {
    var f := Flatten(s);
    FlattenEntriesFound(s);
    if value in ValuesOf(f) {
      var j :| 0 <= j < |f| && ValuesOf(f)[j] == value;
      assert Lookup(s, f[j].key) == Some(value);
    }
    if exists k | SafeKey(k) :: Lookup(s, k) == Some(value) {
      var k :| SafeKey(k) && Lookup(s, k) == Some(value);
      LookupMember(s, k, value);
      var j :| 0 <= j < |f| && f[j] == Entry(k, value);
      assert ValuesOf(f)[j] == value;
    }
  }

  /** A well-placed table lists no entry exactly when `get` finds nothing for every key. */
  lemma EmptyIffNoLookup<V>(s: seq<Slot<V>>)
    requires WellPlaced(s)
    ensures Flatten(s) == [] <==> forall k | SafeKey(k) :: Lookup(s, k).None?
  {
    var f := Flatten(s);
    if f != [] {
      FlattenEntriesFound(s);
      assert Lookup(s, f[0].key).Some?;
    } else {
      forall k | SafeKey(k)
        ensures Lookup(s, k).None?
      {
        if Lookup(s, k).Some? {
          LookupMember(s, k, Lookup(s, k).value);
        }
      }
    }
  }
}
