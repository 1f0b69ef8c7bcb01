/** HashTable<K, V> (ADP_2024/HashTable/HashTable.cs): open addressing with
    linear probing and tombstones, doubling when half full.

    The array of Entry references is an array of Slot values: a null cell
    is Null, and an Entry object is an Entry value. No Entry object is ever
    shared between two cells (each Insert makes a new one), so writing a
    field of a table entry in place is writing the cell. `hashCode` stands
    for GetHashCode and `==` on keys for Equals. The probe sequences and
    the proofs about whole tables are in Probing. */
module HashTable {
  import opened Wrappers
  import opened Probing

  const DefaultCapacity := 16

  class HashTable<K(==), V> {
    var table: array<Slot<K, V>>
    var size: int
    var capacity: int
    /** key.GetHashCode(). */
    const hashCode: K -> int

    /** The buffer is `capacity` cells, at least one, and `size` counts the
        live ones. */
    ghost predicate Counted()
      reads this, table
    {
      table.Length == capacity && capacity >= 1 && size == LiveCount(table[..])
    }

    /** Counted, and the table is at most half full, as the resize test of
        Insert keeps it. */
    ghost predicate Valid()
      reads this, table
    {
      Counted() && size <= capacity / 2
    }

    /** The probing invariant holds of the table: the probe for the key of
        every live entry reaches it. */
    ghost predicate Consistent()
      reads this, table
    {
      Probing.Sound(table[..], hashCode)
    }

    /** HashTable(capacity = 16). The capacity must be at least 1: with 0,
        Resize keeps 0 and the first Hash divides by zero. */
    constructor (hashCode: K -> int, capacity: int := DefaultCapacity)
      requires capacity >= 1
      ensures Valid() && this.capacity == capacity && this.hashCode == hashCode
      ensures table[..] == Blank(capacity) && Consistent() && fresh(table)
    {
      this.hashCode := hashCode;
      this.capacity := capacity;
      table := new Slot<K, V>[capacity](_ => Null);
      size := 0;
      new;
      assert table[..] == Blank(capacity);
      BlankSound<K, V>(capacity, hashCode);
    }

    /** Hash(key): the home slot of `key`, the residue of its hash code. */
    function Hash(key: K): (r: int)
      reads this
      requires capacity >= 1
      ensures 0 <= r < capacity && r == hashCode(key) % capacity
    {
      HashIsResidue(hashCode(key), capacity);
      Probing.Hash(hashCode(key), capacity)
    }

    /** The probe loop of Get, Delete and Update: the slot of the first live
        entry for `key` from its home on, stopping at an empty slot or back
        at the start; -1 when there is none. */
    method Seek(key: K) returns (index: int)
      requires Valid()
      ensures Locate(table[..], Home(table[..], hashCode, key), key, 0) == if index < 0 then None else Some(index)
    {
      ghost var t := table[..];
      index := Hash(key);
      var start := index;
      ghost var j := 0;
      while !table[index].Null?
        invariant 0 <= j < capacity && index == At(start, j, capacity)
        invariant Locate(t, start, key, j) == Locate(t, start, key, 0)
        decreases capacity - j
      {
        if !table[index].isDeleted && table[index].key == key {
          return index;
        }
        StepAt(start, j, capacity);
        index := (index + 1) % capacity;
        if index == start {
          return -1;
        }
        j := j + 1;
      }
      index := -1;
    }

    /** Get(key): the value of the entry the probe finds, or
        KeyNotFoundException. */
    method Get(key: K) returns (r: Result<V>)
      requires Valid()
      ensures Lookup(table[..], hashCode, key).Some? ==> r == Success(Lookup(table[..], hashCode, key).value)
      ensures Lookup(table[..], hashCode, key).None? ==> r == Failure(KeyNotFound)
    {
      var index := Seek(key);
      if index < 0 {
        return Failure(KeyNotFound);
      }
      return Success(table[index].value);
    }

    /** Insert's probe loop: from the home of `key` to the first slot that
        is empty, a tombstone or live with `key`. One exists because the
        table is not full. */
    method SeekVacancy(key: K) returns (index: int)
      requires Counted() && size < capacity
      ensures Vacancy(table[..], Home(table[..], hashCode, key), key, 0) == Some(index)
    {
      ghost var t := table[..];
      index := Hash(key);
      ghost var h := index;
      ghost var j := 0;
      FreeExists(t, h);
      VacancyFound(t, h, key, 0);
      while !table[index].Null? && !table[index].isDeleted && table[index].key != key
        invariant 0 <= j < capacity && index == At(h, j, capacity)
        invariant Vacancy(t, h, key, j) == Vacancy(t, h, key, 0)
        decreases capacity - j
      {
        StepAt(h, j, capacity);
        index := (index + 1) % capacity;
        j := j + 1;
      }
    }

    /** Insert's probe and write, the lines after the resize test: the entry
        goes where the probe stopped, and size grows unless a live entry was
        overwritten. */
    method Place(key: K, value: V)
      requires Counted() && size < capacity
      modifies this, table
      ensures Counted() && capacity == old(capacity) && table == old(table)
      ensures table[..] == Put(old(table[..]), hashCode, key, value)
    {
      var index := SeekVacancy(key);
      Write(index, key, value);
    }

    /** The write shared by both Inserts: a new live entry at `index`,
        counted if the slot was not live. */
    method Write(index: int, key: K, value: V)
      requires Counted() && 0 <= index < capacity
      modifies this, table
      ensures Counted() && capacity == old(capacity) && table == old(table)
      ensures table[..] == old(table[..])[index := Entry(key, value, false)]
    {
      ghost var t := table[..];
      if table[index].Null? || table[index].isDeleted {
        size := size + 1;
      }
      LiveCountUpdate(t, index, Entry(key, value, false));
      table[index] := Entry(key, value, false);
    }

    /** Insert(key, value): resizes first when size >= capacity / 2, then
        places the entry. Get(key) then answers value; on a consistent table
        Get of every other key answers what it did. */
    method Insert(key: K, value: V)
      requires Valid()
      modifies this, table
      ensures Valid()
      ensures old(size) >= old(capacity) / 2 ==>
                capacity == 2 * old(capacity) && fresh(table) &&
                table[..] == Put(Refill(Blank(2 * old(capacity)), old(table[..]), hashCode), hashCode, key, value)
      ensures old(size) < old(capacity) / 2 ==>
                capacity == old(capacity) && table == old(table) &&
                table[..] == Put(old(table[..]), hashCode, key, value)
      ensures Lookup(table[..], hashCode, key) == Some(value)
      ensures old(Consistent()) ==>
                forall k2 :: k2 != key ==> Lookup(table[..], hashCode, k2) == Lookup(old(table[..]), hashCode, k2)
    {
      ghost var t0 := table[..];
      ghost var c0 := Consistent();
      if size >= capacity / 2 {
        Resize();
      }
      ghost var t := table[..];
      ghost var c := Consistent();
      Place(key, value);
      PutThenLookup(t, hashCode, key, value);
      if c0 {
        assert c;
        forall k2 | k2 != key
          ensures Lookup(table[..], hashCode, k2) == Lookup(t0, hashCode, k2)
        {
          PutOtherKey(t, hashCode, key, value, k2);
        }
      }
    }

    /** Resize(): a table of twice the capacity, into which Insert puts the
        live entries of the old one in array order. The re-inserts never
        resize again, since the count stays below the new half. The new
        table is consistent, and Get on it answers, for every key, the value
        of the last live entry for that key in the old table: for a
        consistent old table, exactly what Get answered before. */
    method Resize()
      requires Valid()
      modifies this
      ensures Valid() && capacity == 2 * old(capacity) && fresh(table)
      ensures table[..] == Refill(Blank(2 * old(capacity)), old(table[..]), hashCode)
      ensures Consistent() && forall k :: Lookup(table[..], hashCode, k) == LastLive(old(table[..]), k)
      ensures old(Consistent()) ==> forall k :: Lookup(table[..], hashCode, k) == Lookup(old(table[..]), hashCode, k)
    {
      ghost var src := table[..];
      var newCapacity := capacity * 2;
      var oldTable := table;
      table := new Slot<K, V>[newCapacity](_ => Null);
      capacity := newCapacity;
      size := 0;
      ghost var u0 := Blank<K, V>(newCapacity);
      assert table[..] == u0;
      for i := 0 to oldTable.Length
        invariant oldTable[..] == src && fresh(table)
        invariant Counted() && capacity == newCapacity
        invariant LiveCount(src[..i]) <= LiveCount(src)
        invariant table[..] == Refill(u0, src[..i], hashCode)
      {
        assert src[..i + 1][..i] == src[..i];
        LiveCountPrefix(src, i + 1);
        var entry := oldTable[i];
        if entry.Entry? && !entry.isDeleted {
          // Insert(entry.Key, entry.Value), whose resize test fails here
          assert !(size >= capacity / 2);
          Place(entry.key, entry.value);
        }
      }
      assert src[..oldTable.Length] == src;
      ResizeMeans(src, hashCode);
    }

    /** Delete(key): marks the entry the probe finds as deleted and lowers
        size, or throws KeyNotFoundException and changes nothing. On a
        consistent table, Get(key) then throws and the table stays
        consistent. */
    method Delete(key: K) returns (r: Outcome)
      requires Valid()
      modifies this, table
      ensures Valid() && table == old(table) && capacity == old(capacity)
      ensures var p := Locate(old(table[..]), Home(old(table[..]), hashCode, key), key, 0);
              && (p.Some? ==> r == Pass && table[..] == Tombstone(old(table[..]), p.value) && size == old(size) - 1)
              && (p.None? ==> r == Fail(KeyNotFound) && table[..] == old(table[..]) && size == old(size))
      ensures old(Consistent()) ==> Consistent() && Lookup(table[..], hashCode, key).None?
    {
      var index := Seek(key);
      if index < 0 {
        return Fail(KeyNotFound);
      }
      ghost var t := table[..];
      LiveCountUpdate(t, index, t[index].(isDeleted := true));
      if Probing.Sound(t, hashCode) {
        TombstoneSound(t, hashCode, key);
      }
      table[index] := table[index].(isDeleted := true);
      size := size - 1;
      r := Pass;
    }

    /** Update(key, newValue): replaces the value of the entry the probe
        finds, or throws KeyNotFoundException and changes nothing. Keys,
        size and every other slot stay as they were. */
    method Update(key: K, newValue: V) returns (r: Outcome)
      requires Valid()
      modifies table
      ensures Valid()
      ensures var p := Locate(old(table[..]), Home(old(table[..]), hashCode, key), key, 0);
              && (p.Some? ==> r == Pass && table[..] == Revalue(old(table[..]), p.value, newValue))
              && (p.None? ==> r == Fail(KeyNotFound) && table[..] == old(table[..]))
      ensures r == Pass ==> Lookup(table[..], hashCode, key) == Some(newValue)
      ensures forall k2 :: k2 != key ==> Lookup(table[..], hashCode, k2) == Lookup(old(table[..]), hashCode, k2)
      ensures old(Consistent()) ==> Consistent()
    {
      var index := Seek(key);
      if index < 0 {
        return Fail(KeyNotFound);
      }
      ghost var t := table[..];
      LiveCountUpdate(t, index, t[index].(value := newValue));
      RevalueLookup(t, hashCode, key, newValue);
      table[index] := table[index].(value := newValue);
      r := Pass;
    }

    /** Size(): the number of live entries. */
    function Size(): (r: int)
      reads this, table
      requires Valid()
      ensures r == LiveCount(table[..])
    {
      size
    }

    /** isEmpty(): no entry is live. */
    function IsEmpty(): (r: bool)
      reads this, table
      requires Valid()
      ensures r <==> LiveCount(table[..]) == 0
    {
      Size() == 0
    }

    /** The probe of the corrected Insert: it passes tombstones, remembering
        the first, and keeps looking for `key` until an empty slot or the
        start. It answers the slot of the live entry for `key` if it meets
        one, and otherwise the first slot on the probe that is not live. */
    method SeekTarget(key: K) returns (index: int)
      requires Counted() && size < capacity
      ensures index == Target(table[..], hashCode, key)
    {
      ghost var t := table[..];
      index := Hash(key);
      var start := index;
      var free := -1;
      var found := false;
      ghost var j := 0;
      FreeExists(t, start);
      while !table[index].Null?
        invariant 0 <= j < capacity && index == At(start, j, capacity)
        invariant Locate(t, start, key, j) == Locate(t, start, key, 0)
        invariant free < 0 ==> FirstFree(t, start, j) == FirstFree(t, start, 0)
        invariant free >= 0 ==> FirstFree(t, start, 0) == Some(free)
        decreases capacity - j
      {
        if !table[index].isDeleted && table[index].key == key {
          found := true;
          break;
        }
        if table[index].isDeleted && free < 0 {
          free := index;
        }
        StepAt(start, j, capacity);
        var next := (index + 1) % capacity;
        if next == start {
          index := free;
          break;
        }
        index := next;
        j := j + 1;
      }
      if !found && free >= 0 {
        index := free;
      }
    }

    /** The corrected Insert's probe and write. */
    method PlaceCorrected(key: K, value: V)
      requires Counted() && size < capacity
      modifies this, table
      ensures Counted() && capacity == old(capacity) && table == old(table)
      ensures table[..] == PutCorrected(old(table[..]), hashCode, key, value)
    {
      var index := SeekTarget(key);
      Write(index, key, value);
    }

    /** Insert with the corrected probe. It keeps the table consistent, and
        afterwards Get(key) answers value and Get of every other key answers
        what it did. */
    method InsertCorrected(key: K, value: V)
      requires Valid()
      modifies this, table
      ensures Valid()
      ensures old(size) >= old(capacity) / 2 ==>
                capacity == 2 * old(capacity) && fresh(table) &&
                table[..] == PutCorrected(Refill(Blank(2 * old(capacity)), old(table[..]), hashCode), hashCode, key, value)
      ensures old(size) < old(capacity) / 2 ==>
                capacity == old(capacity) && table == old(table) &&
                table[..] == PutCorrected(old(table[..]), hashCode, key, value)
      ensures old(Consistent()) ==> Consistent() && Lookup(table[..], hashCode, key) == Some(value)
      ensures old(Consistent()) ==>
                forall k2 :: k2 != key ==> Lookup(table[..], hashCode, k2) == Lookup(old(table[..]), hashCode, k2)
    {
      if size >= capacity / 2 {
        Resize();
      }
      ghost var t := table[..];
      PlaceCorrected(key, value);
      if Probing.Sound(t, hashCode) {
        PutCorrectedSound(t, hashCode, key, value);
        PutCorrectedLookup(t, hashCode, key, value);
      }
    }
  }

  /** A prefix has no more live slots than the whole. */
  lemma {:induction false} LiveCountPrefix<K, V>(s: seq<Slot<K, V>>, i: int)
    requires 0 <= i <= |s|
    ensures LiveCount(s[..i]) <= LiveCount(s)
    decreases |s|
  {
    if i < |s| {
      assert s[..|s| - 1][..i] == s[..i];
      LiveCountPrefix(s[..|s| - 1], i);
    } else {
      assert s[..i] == s;
    }
  }

  /** Insert(1), Insert(17), Delete(1), Insert(17), Delete(17) at capacity
      16, keys hashing to themselves: Get(17) answers the value of the first
      Insert(17), which the second one left live in the next slot. */
  method DeletedKeyStillFound() returns (r: Result<int>)
    ensures r == Success(20)
  {
    var code := (x: int) => x;
    var h := new HashTable<int, int>(code, 16);
    TombstoneDuplicate();
    ghost var t1 := Put(Blank(16), code, 1, 10);
    ghost var t2 := Put(t1, code, 17, 20);
    ghost var t4 := Put(Tombstone(t2, 1), code, 17, 30);
    h.Insert(1, 10);
    assert h.table[..] == t1 && h.size == 1;
    h.Insert(17, 20);
    assert h.table[..] == t2 && h.size == 2;
    var _ := h.Delete(1);
    assert h.table[..] == Tombstone(t2, 1);
    h.Insert(17, 30);
    assert h.table[..] == t4;
    var _ := h.Delete(17);
    assert h.table[..] == Tombstone(t4, 1);
    r := h.Get(17);
  }

  /** The same history with the corrected Insert: Get(17) throws. */
  method DeletedKeyGone() returns (r: Result<int>)
    ensures r == Failure(KeyNotFound)
  {
    var code := (x: int) => x;
    var h := new HashTable<int, int>(code, 16);
    h.InsertCorrected(1, 10);
    h.InsertCorrected(17, 20);
    var _ := h.Delete(1);
    h.InsertCorrected(17, 30);
    var _ := h.Delete(17);
    r := h.Get(17);
  }
}
