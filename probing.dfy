/** The slot arithmetic and the probe sequences of HashTable<K, V>
    (ADP_2024/HashTable/HashTable.cs), on the table as a sequence of slots.

    A slot is empty (a null array cell) or holds an Entry with its key, its
    value and its IsDeleted flag; a deleted entry is a tombstone. Every
    probe starts at the hash of the key and visits slots h, h+1, ... modulo
    the capacity, at most once each. Keys hash through `code`, standing for
    GetHashCode. */
module Probing {
  import opened Wrappers

  /** A cell of the table. */
  datatype Slot<K, V> = Null | Entry(key: K, value: V, isDeleted: bool)

  /** A slot with an entry that is not deleted. */
  predicate Live<K, V>(s: Slot<K, V>) {
    s.Entry? && !s.isDeleted
  }

  /** A live slot whose key is `key`. */
  predicate HoldsKey<K(==), V>(s: Slot<K, V>, key: K) {
    Live(s) && s.key == key
  }

  /** C#'s `a % m` for a positive `m`: the remainder of division that
      truncates toward zero, so it has the sign of `a`. */
  function TruncRem(a: int, m: int): (r: int)
    requires m > 0
    ensures -m < r < m
    ensures a >= 0 ==> r >= 0
    ensures a <= 0 ==> r <= 0
    ensures (a - r) % m == 0
  {
    if a >= 0 then
      assert a - a % m == m * (a / m);
      MultipleMod(m, a / m);
      a % m
    else
      var b := -a;
      assert a + b % m == m * -(b / m);
      MultipleMod(m, -(b / m));
      -(b % m)
  }

  /** m * d is at least m for a positive d. */
  lemma {:induction false} MulAtLeast(m: int, d: int)
    requires m > 0 && d >= 1
    ensures m * d >= m
    decreases d
  {
    if d > 1 {
      MulAtLeast(m, d - 1);
      assert m * d == m * (d - 1) + m;
    }
  }

  /** Multiples of m below m * y are at most m * y - m. */
  lemma MulGap(m: int, x: int, y: int)
    requires m > 0 && x < y
    ensures m * x + m <= m * y
  {
    MulAtLeast(m, y - x);
    assert m * y == m * x + m * (y - x);
  }

  /** Euclidean division is unique: a quotient and a remainder in [0, m)
      that reproduce `a` are the ones `/` and `%` give. */
  lemma ModUnique(a: int, m: int, q: int, r: int)
    requires m > 0 && 0 <= r < m && a == m * q + r
    ensures a % m == r && a / m == q
  {
    var q0 := a / m;
    if q0 < q {
      MulGap(m, q0, q);
    } else if q0 > q {
      MulGap(m, q, q0);
    }
  }

  /** A multiple of m leaves remainder 0. */
  lemma MultipleMod(m: int, q: int)
    requires m > 0
    ensures (m * q) % m == 0
  {
    ModUnique(m * q, m, q, 0);
  }

  /** The residue of a negative number -b from that of b. */
  lemma NegResidue(b: int, m: int)
    requires m > 0 && b > 0
    ensures (-b) % m == if b % m == 0 then 0 else m - b % m
  {
    var q, s := b / m, b % m;
    if s == 0 {
      assert -b == m * -q;
      ModUnique(-b, m, -q, 0);
    } else {
      assert -b == m * (-q - 1) + (m - s);
      ModUnique(-b, m, -q - 1, m - s);
    }
  }

  /** Hash(key) for GetHashCode() = `code` and a table of `capacity`
      slots: the C# remainder, moved into range when it is negative. */
  function Hash(code: int, capacity: int): (r: int)
    requires capacity > 0
    ensures 0 <= r < capacity
  {
    var h := TruncRem(code, capacity);
    if h < 0 then h + capacity else h
  }

  /** Hash is the mathematical residue of the hash code: the fix-up after
      C#'s remainder lands exactly on it. */
  lemma HashIsResidue(code: int, capacity: int)
    requires capacity > 0
    ensures Hash(code, capacity) == code % capacity
  {
    if code < 0 {
      NegResidue(-code, capacity);
    }
  }

  /** The j-th slot of the probe from h in a table of m slots: (h + j) % m. */
  function At(h: int, j: int, m: int): (r: int)
    requires 0 <= h < m && 0 <= j < m
    ensures 0 <= r < m
  {
    if h + j < m then h + j else h + j - m
  }

  /** The probe step `(index + 1) % capacity`. */
  function Step(index: int, m: int): (r: int)
    requires 0 <= index < m
    ensures r == (index + 1) % m
    ensures 0 <= r < m
  {
    if index + 1 < m then index + 1
    else
      ModUnique(index + 1, m, 1, 0);
      0
  }

  /** At and Step agree: stepping from the j-th slot reaches the next one,
      and from the last one the probe is back at its start. */
  lemma StepAt(h: int, j: int, m: int)
    requires 0 <= h < m && 0 <= j < m
    ensures j + 1 < m ==> Step(At(h, j, m), m) == At(h, j + 1, m)
    ensures j + 1 == m ==> Step(At(h, j, m), m) == h
    ensures 0 < j ==> At(h, j, m) != h
  {
  }

  /** Every slot of the table lies on every probe. */
  lemma AtCovers(h: int, p: int, m: int) returns (j: int)
    requires 0 <= h < m && 0 <= p < m
    ensures 0 <= j < m && At(h, j, m) == p
  {
    j := if p >= h then p - h else p - h + m;
  }

  /** The probe of Get, Delete and Update from step j on: the first live slot
      holding `key`, the search ending at an empty slot or when every slot
      has been visited. */
  function Locate<K(==), V>(t: seq<Slot<K, V>>, h: int, key: K, j: nat): (r: Option<int>)
    requires 0 <= h < |t| && j <= |t|
    ensures r.Some? ==> 0 <= r.value < |t| && HoldsKey(t[r.value], key)
    decreases |t| - j
  {
    if j == |t| then None
    else
      var p := At(h, j, |t|);
      if t[p].Null? then None
      else if HoldsKey(t[p], key) then Some(p)
      else Locate(t, h, key, j + 1)
  }

  /** The probe of Insert from step j on: the first slot that is empty, a
      tombstone, or a live entry with `key`. */
  function Vacancy<K(==), V>(t: seq<Slot<K, V>>, h: int, key: K, j: nat): (r: Option<int>)
    requires 0 <= h < |t| && j <= |t|
    ensures r.Some? ==> 0 <= r.value < |t| && (!Live(t[r.value]) || t[r.value].key == key)
    decreases |t| - j
  {
    if j == |t| then None
    else
      var p := At(h, j, |t|);
      if !Live(t[p]) || t[p].key == key then Some(p)
      else Vacancy(t, h, key, j + 1)
  }

  /** The first slot from step j on that is not live. */
  function FirstFree<K, V>(t: seq<Slot<K, V>>, h: int, j: nat): (r: Option<int>)
    requires 0 <= h < |t| && j <= |t|
    ensures r.Some? ==> 0 <= r.value < |t| && !Live(t[r.value])
    decreases |t| - j
  {
    if j == |t| then None
    else
      var p := At(h, j, |t|);
      if !Live(t[p]) then Some(p) else FirstFree(t, h, j + 1)
  }

  /** The number of live slots. */
  function LiveCount<K, V>(t: seq<Slot<K, V>>): (r: nat)
    ensures r <= |t|
  {
    if t == [] then 0 else LiveCount(t[..|t| - 1]) + (if Live(t[|t| - 1]) then 1 else 0)
  }

  /** Replacing one slot changes the count by what that slot contributes. */
  lemma {:induction false} LiveCountUpdate<K, V>(t: seq<Slot<K, V>>, p: int, s: Slot<K, V>)
    requires 0 <= p < |t|
    ensures LiveCount(t[p := s]) ==
              LiveCount(t) - (if Live(t[p]) then 1 else 0) + (if Live(s) then 1 else 0)
  {
    var u := t[p := s];
    if p < |t| - 1 {
      assert u[..|u| - 1] == t[..|t| - 1][p := s];
      LiveCountUpdate(t[..|t| - 1], p, s);
    } else {
      assert u[..|u| - 1] == t[..|t| - 1];
    }
  }

  /** A table whose slots are all live is counted in full. */
  lemma {:induction false} LiveCountFull<K, V>(t: seq<Slot<K, V>>)
    requires forall p :: 0 <= p < |t| ==> Live(t[p])
    ensures LiveCount(t) == |t|
  {
    if t != [] {
      LiveCountFull(t[..|t| - 1]);
    }
  }

  /** A table of empty slots has no live slot. */
  lemma {:induction false} LiveCountEmpty<K, V>(t: seq<Slot<K, V>>)
    requires forall p :: 0 <= p < |t| ==> t[p].Null?
    ensures LiveCount(t) == 0
  {
    if t != [] {
      LiveCountEmpty(t[..|t| - 1]);
    }
  }

  /** When FirstFree finds nothing, every slot from step j on is live. */
  lemma {:induction false} FirstFreeNone<K, V>(t: seq<Slot<K, V>>, h: int, j: nat)
    requires 0 <= h < |t| && j <= |t| && FirstFree(t, h, j).None?
    ensures forall i :: j <= i < |t| ==> Live(t[At(h, i, |t|)])
    decreases |t| - j
  {
    if j < |t| {
      FirstFreeNone(t, h, j + 1);
    }
  }

  /** A table with a slot that is not live has one on every probe. */
  lemma FreeExists<K, V>(t: seq<Slot<K, V>>, h: int)
    requires 0 <= h < |t| && LiveCount(t) < |t|
    ensures FirstFree(t, h, 0).Some?
  {
    if FirstFree(t, h, 0).None? {
      FirstFreeNone(t, h, 0);
      forall p | 0 <= p < |t| ensures Live(t[p]) {
        var j := AtCovers(h, p, |t|);
      }
      LiveCountFull(t);
    }
  }

  /** Insert's probe stops no later than the first slot that is not live. */
  lemma {:induction false} VacancyFound<K, V>(t: seq<Slot<K, V>>, h: int, key: K, j: nat)
    requires 0 <= h < |t| && j <= |t| && FirstFree(t, h, j).Some?
    ensures Vacancy(t, h, key, j).Some?
    decreases |t| - j
  {
    if !Live(t[At(h, j, |t|)]) {
    } else {
      VacancyFound(t, h, key, j + 1);
    }
  }

  /** Writing an entry for `key` where Insert's probe stopped: the probe of
      Get now finds that slot. This holds for any table. */
  lemma {:induction false} VacancyThenLocate<K, V>(t: seq<Slot<K, V>>, h: int, key: K, value: V, j: nat)
    requires 0 <= h < |t| && j <= |t| && Vacancy(t, h, key, j).Some?
    ensures var q := Vacancy(t, h, key, j).value;
            Locate(t[q := Entry(key, value, false)], h, key, j) == Some(q)
    decreases |t| - j
  {
    var q := Vacancy(t, h, key, j).value;
    var p := At(h, j, |t|);
    if p != q {
      VacancyThenLocate(t, h, key, value, j + 1);
    }
  }

  /** Two slots look the same to a probe for `key`: both empty or both not,
      and both holding `key` or neither. */
  predicate Alike<K(==), V>(a: Slot<K, V>, b: Slot<K, V>, key: K) {
    (a.Null? <==> b.Null?) && (HoldsKey(a, key) <==> HoldsKey(b, key))
  }

  /** A probe for `key` does not see a change to a slot that stays alike. */
  lemma {:induction false} LocateAlike<K, V>(t: seq<Slot<K, V>>, q: int, s: Slot<K, V>, h: int, key: K, j: nat)
    requires 0 <= q < |t| && 0 <= h < |t| && j <= |t| && Alike(t[q], s, key)
    ensures Locate(t[q := s], h, key, j) == Locate(t, h, key, j)
    decreases |t| - j
  {
    if j < |t| {
      LocateAlike(t, q, s, h, key, j + 1);
    }
  }

  /** A probe that finds its key does not see a change to an empty slot. */
  lemma {:induction false} LocateMissesNull<K, V>(t: seq<Slot<K, V>>, q: int, s: Slot<K, V>, h: int, key: K, j: nat)
    requires 0 <= q < |t| && 0 <= h < |t| && j <= |t| && t[q].Null? && Locate(t, h, key, j).Some?
    ensures Locate(t[q := s], h, key, j) == Locate(t, h, key, j)
    decreases |t| - j
  {
    if At(h, j, |t|) != Locate(t, h, key, j).value {
      LocateMissesNull(t, q, s, h, key, j + 1);
    }
  }

  /** Writing `key` into the first free slot when the probe for `key` finds
      nothing: the probe now finds it there. */
  lemma {:induction false} FreeThenLocate<K, V>(t: seq<Slot<K, V>>, h: int, key: K, value: V, j: nat)
    requires 0 <= h < |t| && j <= |t| && Locate(t, h, key, j).None? && FirstFree(t, h, j).Some?
    ensures var q := FirstFree(t, h, j).value;
            Locate(t[q := Entry(key, value, false)], h, key, j) == Some(q)
    decreases |t| - j
  {
    var q := FirstFree(t, h, j).value;
    if At(h, j, |t|) != q {
      FreeThenLocate(t, h, key, value, j + 1);
    }
  }

  /** The slot where every probe for `key` starts. */
  function Home<K, V>(t: seq<Slot<K, V>>, code: K -> int, key: K): (r: int)
    requires |t| > 0
    ensures 0 <= r < |t|
  {
    Hash(code(key), |t|)
  }

  /** Get(key) on the table `t`: the value of the slot the probe finds, or
      None for KeyNotFoundException. */
  function Lookup<K(==), V>(t: seq<Slot<K, V>>, code: K -> int, key: K): (r: Option<V>)
    requires |t| > 0
  {
    match Locate(t, Home(t, code, key), key, 0)
    case Some(p) => Some(t[p].value)
    case None => None
  }

  /** Get finds only what is there: a value it answers is that of a live
      entry for `key`, and when no live entry holds `key` it answers None. */
  lemma LookupSays<K, V>(t: seq<Slot<K, V>>, code: K -> int, key: K)
    requires |t| > 0
    ensures Lookup(t, code, key).Some? ==>
              exists p :: 0 <= p < |t| && t[p] == Entry(key, Lookup(t, code, key).value, false)
    ensures (forall p :: 0 <= p < |t| ==> !HoldsKey(t[p], key)) ==> Lookup(t, code, key).None?
  {
    if Lookup(t, code, key).Some? {
      var p := Locate(t, Home(t, code, key), key, 0).value;
      assert t[p] == Entry(key, Lookup(t, code, key).value, false);
    }
  }

  /** The probing invariant: the probe for the key of every live slot,
      started at that key's home, reaches that slot. */
  ghost predicate Sound<K, V>(t: seq<Slot<K, V>>, code: K -> int) {
    && |t| > 0
    && forall p :: 0 <= p < |t| && Live(t[p]) ==> Locate(t, Home(t, code, t[p].key), t[p].key, 0) == Some(p)
  }

  /** In a sound table no key is live twice, and Get answers exactly the
      value of the live entry for the key, if there is one. */
  lemma SoundLookup<K, V>(t: seq<Slot<K, V>>, code: K -> int, key: K, p: int)
    requires Sound(t, code) && 0 <= p < |t| && HoldsKey(t[p], key)
    ensures Lookup(t, code, key) == Some(t[p].value)
    ensures forall i :: 0 <= i < |t| && HoldsKey(t[i], key) ==> i == p
  {
  }

  /** No slot holds a deleted entry. */
  ghost predicate Clean<K, V>(t: seq<Slot<K, V>>) {
    forall p :: 0 <= p < |t| && t[p].Entry? ==> !t[p].isDeleted
  }

  /** The table Insert writes when it does not resize: the new live entry
      goes where its probe stopped. A slot that is not live exists because
      fewer than |t| slots are live. */
  function Put<K(==), V>(t: seq<Slot<K, V>>, code: K -> int, key: K, value: V): (r: seq<Slot<K, V>>)
    requires |t| > 0 && LiveCount(t) < |t|
    ensures |r| == |t| && LiveCount(r) <= LiveCount(t) + 1
  {
    var h := Home(t, code, key);
    FreeExists(t, h);
    VacancyFound(t, h, key, 0);
    var q := Vacancy(t, h, key, 0).value;
    LiveCountUpdate(t, q, Entry(key, value, false));
    t[q := Entry(key, value, false)]
  }

  /** After Insert(key, value), Get(key) answers value, on any table. */
  lemma PutThenLookup<K, V>(t: seq<Slot<K, V>>, code: K -> int, key: K, value: V)
    requires |t| > 0 && LiveCount(t) < |t|
    ensures Lookup(Put(t, code, key, value), code, key) == Some(value)
  {
    var h := Home(t, code, key);
    FreeExists(t, h);
    VacancyFound(t, h, key, 0);
    VacancyThenLocate(t, h, key, value, 0);
  }

  /** On a sound table, Insert leaves Get of every other key as it was:
      the slot it writes is not live or already holds `key`. */
  lemma PutOtherKey<K, V>(t: seq<Slot<K, V>>, code: K -> int, key: K, value: V, k2: K)
    requires Sound(t, code) && LiveCount(t) < |t| && k2 != key
    ensures Lookup(Put(t, code, key, value), code, k2) == Lookup(t, code, k2)
  {
    var h := Home(t, code, key);
    FreeExists(t, h);
    VacancyFound(t, h, key, 0);
    var q := Vacancy(t, h, key, 0).value;
    if Locate(t, Home(t, code, k2), k2, 0).None? {
      SoundAbsent(t, code, k2);
    }
    WriteKeepsProbe(t, q, Entry(key, value, false), Home(t, code, k2), k2);
  }

  /** Where the corrected Insert writes: the live slot that the probe for
      `key` finds, or else the first slot on the probe that is not live. */
  function Target<K(==), V>(t: seq<Slot<K, V>>, code: K -> int, key: K): (r: int)
    requires |t| > 0 && LiveCount(t) < |t|
    ensures 0 <= r < |t|
  {
    var h := Home(t, code, key);
    match Locate(t, h, key, 0)
    case Some(p) => p
    case None => FreeExists(t, h); FirstFree(t, h, 0).value
  }

  /** The table the corrected Insert writes when it does not resize. */
  function PutCorrected<K(==), V>(t: seq<Slot<K, V>>, code: K -> int, key: K, value: V): (r: seq<Slot<K, V>>)
    requires |t| > 0 && LiveCount(t) < |t|
    ensures |r| == |t| && LiveCount(r) <= LiveCount(t) + 1
  {
    var q := Target(t, code, key);
    LiveCountUpdate(t, q, Entry(key, value, false));
    t[q := Entry(key, value, false)]
  }

  /** On a table without tombstones Insert's probe stops exactly where the
      corrected one does. */
  lemma {:induction false} CleanVacancy<K, V>(t: seq<Slot<K, V>>, h: int, key: K, j: nat)
    requires 0 <= h < |t| && j <= |t| && Clean(t)
    ensures Vacancy(t, h, key, j) == if Locate(t, h, key, j).Some? then Locate(t, h, key, j) else FirstFree(t, h, j)
    decreases |t| - j
  {
    if j < |t| {
      CleanVacancy(t, h, key, j + 1);
    }
  }

  /** So on such a table the two Inserts write the same table. */
  lemma CleanPut<K, V>(t: seq<Slot<K, V>>, code: K -> int, key: K, value: V)
    requires |t| > 0 && LiveCount(t) < |t| && Clean(t)
    ensures Put(t, code, key, value) == PutCorrected(t, code, key, value)
    ensures Clean(Put(t, code, key, value))
  {
    CleanVacancy(t, Home(t, code, key), key, 0);
  }

  /** Which slot the corrected Insert writes: one that holds `key` when the
      probe for `key` finds it, and one that is not live when it does not. */
  lemma TargetIs<K, V>(t: seq<Slot<K, V>>, code: K -> int, key: K)
    requires |t| > 0 && LiveCount(t) < |t|
    ensures var q := Target(t, code, key);
            if Locate(t, Home(t, code, key), key, 0).Some? then HoldsKey(t[q], key) else !Live(t[q])
  {
    var h := Home(t, code, key);
    if Locate(t, h, key, 0).None? {
      FreeExists(t, h);
      var f := FirstFree(t, h, 0);
      assert Target(t, code, key) == f.value;
    }
  }

  /** In a sound table where the probe for `key` finds nothing, no slot
      holds `key`. */
  lemma SoundAbsent<K, V>(t: seq<Slot<K, V>>, code: K -> int, key: K)
    requires Sound(t, code) && Locate(t, Home(t, code, key), key, 0).None?
    ensures forall p :: 0 <= p < |t| ==> !HoldsKey(t[p], key)
  {
  }

  /** Writing an entry that holds some other key into a slot that does not
      hold `key` leaves the probe for `key` as it was, provided `key` is
      nowhere when the probe misses it. */
  lemma WriteKeepsProbe<K, V>(t: seq<Slot<K, V>>, q: int, e: Slot<K, V>, h: int, key: K)
    requires 0 <= q < |t| && 0 <= h < |t| && e.Entry? && !HoldsKey(e, key) && !HoldsKey(t[q], key)
    requires Locate(t, h, key, 0).None? ==> forall p :: 0 <= p < |t| ==> !HoldsKey(t[p], key)
    ensures Locate(t[q := e], h, key, 0) == Locate(t, h, key, 0)
  {
    if t[q].Entry? {
      LocateAlike(t, q, e, h, key, 0);
    } else if Locate(t, h, key, 0).Some? {
      LocateMissesNull(t, q, e, h, key, 0);
    } else {
      var u := t[q := e];
      forall p | 0 <= p < |u| ensures !HoldsKey(u[p], key) {
        if p != q {
          assert u[p] == t[p];
        }
      }
    }
  }

  /** The corrected Insert leaves the probe for every other key as it was. */
  lemma OtherKeyUnmoved<K, V>(t: seq<Slot<K, V>>, code: K -> int, key: K, value: V, k2: K)
    requires Sound(t, code) && LiveCount(t) < |t| && k2 != key
    ensures var u := PutCorrected(t, code, key, value);
            Locate(u, Home(u, code, k2), k2, 0) == Locate(t, Home(t, code, k2), k2, 0)
  {
    TargetIs(t, code, key);
    if Locate(t, Home(t, code, k2), k2, 0).None? {
      SoundAbsent(t, code, k2);
    }
    WriteKeepsProbe(t, Target(t, code, key), Entry(key, value, false), Home(t, code, k2), k2);
  }

  /** The corrected Insert keeps every other live slot where its probe
      finds it. */
  lemma LiveSlotStays<K, V>(t: seq<Slot<K, V>>, code: K -> int, key: K, value: V, p: int)
    requires Sound(t, code) && LiveCount(t) < |t|
    requires 0 <= p < |t| && p != Target(t, code, key) && Live(t[p])
    ensures var u := PutCorrected(t, code, key, value);
            Locate(u, Home(u, code, t[p].key), t[p].key, 0) == Some(p)
  {
    TargetIs(t, code, key);
    if Locate(t, Home(t, code, key), key, 0).None? {
      SoundAbsent(t, code, key);
    }
    OtherKeyUnmoved(t, code, key, value, t[p].key);
  }

  /** The corrected Insert places `key` where its own probe finds it. */
  lemma KeyPlaced<K, V>(t: seq<Slot<K, V>>, code: K -> int, key: K, value: V)
    requires |t| > 0 && LiveCount(t) < |t|
    ensures var u := PutCorrected(t, code, key, value);
            Locate(u, Home(u, code, key), key, 0) == Some(Target(t, code, key))
  {
    var h := Home(t, code, key);
    var q := Target(t, code, key);
    var e := Entry(key, value, false);
    if Locate(t, h, key, 0).Some? {
      LocateAlike(t, q, e, h, key, 0);
    } else {
      FreeExists(t, h);
      FreeThenLocate(t, h, key, value, 0);
    }
  }

  /** The corrected Insert keeps the probing invariant. */
  lemma PutCorrectedSound<K, V>(t: seq<Slot<K, V>>, code: K -> int, key: K, value: V)
    requires Sound(t, code) && LiveCount(t) < |t|
    ensures Sound(PutCorrected(t, code, key, value), code)
  {
    var u := PutCorrected(t, code, key, value);
    var q := Target(t, code, key);
    KeyPlaced(t, code, key, value);
    forall p | 0 <= p < |u| && Live(u[p])
      ensures Locate(u, Home(u, code, u[p].key), u[p].key, 0) == Some(p)
    {
      if p != q {
        LiveSlotStays(t, code, key, value, p);
      }
    }
  }

  /** After the corrected Insert, Get of another key answers what it did. */
  lemma OtherKeyLookup<K, V>(t: seq<Slot<K, V>>, code: K -> int, key: K, value: V, k2: K)
    requires Sound(t, code) && LiveCount(t) < |t| && k2 != key
    ensures Lookup(PutCorrected(t, code, key, value), code, k2) == Lookup(t, code, k2)
  {
    OtherKeyUnmoved(t, code, key, value, k2);
  }

  /** After the corrected Insert, Get(key) answers value and Get of every
      other key answers what it did. */
  lemma PutCorrectedLookup<K, V>(t: seq<Slot<K, V>>, code: K -> int, key: K, value: V)
    requires Sound(t, code) && LiveCount(t) < |t|
    ensures var u := PutCorrected(t, code, key, value);
            && Lookup(u, code, key) == Some(value)
            && forall k2 :: k2 != key ==> Lookup(u, code, k2) == Lookup(t, code, k2)
  {
    KeyPlaced(t, code, key, value);
    forall k2 | k2 != key ensures Lookup(PutCorrected(t, code, key, value), code, k2) == Lookup(t, code, k2) {
      OtherKeyLookup(t, code, key, value, k2);
    }
  }

  /** The table after Delete marks slot p as deleted. */
  function Tombstone<K, V>(t: seq<Slot<K, V>>, p: int): (r: seq<Slot<K, V>>)
    requires 0 <= p < |t| && t[p].Entry?
    ensures |r| == |t| && !Live(r[p])
  {
    t[p := t[p].(isDeleted := true)]
  }

  /** Delete keeps the probing invariant; afterwards Get(key) throws and Get
      of every other key answers what it did. */
  lemma TombstoneSound<K, V>(t: seq<Slot<K, V>>, code: K -> int, key: K)
    requires Sound(t, code) && Locate(t, Home(t, code, key), key, 0).Some?
    ensures var u := Tombstone(t, Locate(t, Home(t, code, key), key, 0).value);
            && Sound(u, code)
            && Lookup(u, code, key).None?
            && forall k2 :: k2 != key ==> Lookup(u, code, k2) == Lookup(t, code, k2)
  {
    var q := Locate(t, Home(t, code, key), key, 0).value;
    var u := Tombstone(t, q);
    forall k2 | k2 != key ensures Locate(u, Home(u, code, k2), k2, 0) == Locate(t, Home(t, code, k2), k2, 0) {
      LocateAlike(t, q, u[q], Home(t, code, k2), k2, 0);
    }
    forall p | 0 <= p < |u| ensures !HoldsKey(u[p], key) {
      if p != q {
        assert u[p] == t[p];
      }
    }
    LookupSays(u, code, key);
    forall p | 0 <= p < |u| && Live(u[p])
      ensures Locate(u, Home(u, code, u[p].key), u[p].key, 0) == Some(p)
    {
      assert u[p].key != key;
    }
  }

  /** The table after Update gives slot p the value `value`. */
  function Revalue<K, V>(t: seq<Slot<K, V>>, p: int, value: V): (r: seq<Slot<K, V>>)
    requires 0 <= p < |t| && t[p].Entry?
    ensures |r| == |t| && r[p].Entry? && r[p].value == value && r[p].key == t[p].key
  {
    t[p := t[p].(value := value)]
  }

  /** Update leaves every probe where it was and every live key in place:
      on any table Get(key) then answers the new value and Get of every
      other key what it did, and a sound table stays sound. */
  lemma RevalueLookup<K, V>(t: seq<Slot<K, V>>, code: K -> int, key: K, value: V)
    requires |t| > 0 && Locate(t, Home(t, code, key), key, 0).Some?
    ensures var u := Revalue(t, Locate(t, Home(t, code, key), key, 0).value, value);
            && Lookup(u, code, key) == Some(value)
            && (forall k2 :: k2 != key ==> Lookup(u, code, k2) == Lookup(t, code, k2))
            && (Sound(t, code) ==> Sound(u, code))
  {
    var q := Locate(t, Home(t, code, key), key, 0).value;
    var u := Revalue(t, q, value);
    forall k2 ensures Locate(u, Home(u, code, k2), k2, 0) == Locate(t, Home(t, code, k2), k2, 0) {
      LocateAlike(t, q, u[q], Home(t, code, k2), k2, 0);
    }
  }

  /** The value of the last live entry for `key` in array order. */
  function LastLive<K(==), V>(s: seq<Slot<K, V>>, key: K): (r: Option<V>)
  {
    if s == [] then None
    else if HoldsKey(s[|s| - 1], key) then Some(s[|s| - 1].value)
    else LastLive(s[..|s| - 1], key)
  }

  /** LastLive names a live entry for `key`, the latest one, if any exists. */
  lemma {:induction false} LastLiveIs<K, V>(s: seq<Slot<K, V>>, key: K)
    ensures LastLive(s, key).Some? ==>
              exists i :: 0 <= i < |s| && HoldsKey(s[i], key) && s[i].value == LastLive(s, key).value
    ensures LastLive(s, key).None? ==> forall i :: 0 <= i < |s| ==> !HoldsKey(s[i], key)
  {
    if s != [] {
      LastLiveIs(s[..|s| - 1], key);
      if !HoldsKey(s[|s| - 1], key) && LastLive(s, key).Some? {
        var i :| 0 <= i < |s| - 1 && HoldsKey(s[..|s| - 1][i], key) && s[..|s| - 1][i].value == LastLive(s, key).value;
        assert s[i] == s[..|s| - 1][i];
      }
    }
  }

  /** A table of `n` empty slots. */
  function Blank<K, V>(n: nat): (r: seq<Slot<K, V>>)
    ensures |r| == n && LiveCount(r) == 0 && Clean(r)
  {
    var r := seq(n, _ => Null);
    LiveCountEmpty(r);
    r
  }

  /** Resize's loop: the live entries of `src`, in array order, inserted
      into `u0` one after another. */
  function Refill<K(==), V>(u0: seq<Slot<K, V>>, src: seq<Slot<K, V>>, code: K -> int): (r: seq<Slot<K, V>>)
    requires |u0| > 0 && LiveCount(u0) + LiveCount(src) < |u0|
    ensures |r| == |u0| && LiveCount(r) <= LiveCount(u0) + LiveCount(src)
  {
    if src == [] then u0
    else
      var u := Refill(u0, src[..|src| - 1], code);
      var e := src[|src| - 1];
      if Live(e) then Put(u, code, e.key, e.value) else u
  }

  /** Inserting into a table without tombstones: the table stays free of
      them and sound, Get(key) answers the new value and every other Get
      what it did. */
  lemma CleanPutLookup<K, V>(t: seq<Slot<K, V>>, code: K -> int, key: K, value: V)
    requires Sound(t, code) && Clean(t) && LiveCount(t) < |t|
    ensures var u := Put(t, code, key, value);
            && Sound(u, code) && Clean(u)
            && Lookup(u, code, key) == Some(value)
            && forall k2 :: k2 != key ==> Lookup(u, code, k2) == Lookup(t, code, k2)
  {
    CleanPut(t, code, key, value);
    PutCorrectedSound(t, code, key, value);
    PutCorrectedLookup(t, code, key, value);
  }

  /** The table Resize builds is sound, and Get on it answers, for every key,
      the value of the last live entry for that key in the old table. */
  lemma {:induction false} RefillLookup<K, V>(u0: seq<Slot<K, V>>, src: seq<Slot<K, V>>, code: K -> int)
    requires |u0| > 0 && LiveCount(u0) + LiveCount(src) < |u0|
    requires Sound(u0, code) && Clean(u0) && forall k :: Lookup(u0, code, k).None?
    ensures var r := Refill(u0, src, code);
            && Sound(r, code) && Clean(r)
            && forall k :: Lookup(r, code, k) == LastLive(src, k)
  {
    if src != [] {
      var s := src[..|src| - 1];
      var e := src[|src| - 1];
      RefillLookup(u0, s, code);
      var u := Refill(u0, s, code);
      if Live(e) {
        CleanPutLookup(u, code, e.key, e.value);
      }
    }
  }

  /** A fresh table of any positive size is sound and clean, and every Get
      on it throws. */
  lemma BlankSound<K, V>(n: nat, code: K -> int)
    requires n > 0
    ensures Sound(Blank<K, V>(n), code) && forall k :: Lookup(Blank<K, V>(n), code, k).None?
  {
  }

  /** Resize keeps every Get result of a sound table. */
  lemma ResizeKeepsLookups<K, V>(t: seq<Slot<K, V>>, code: K -> int)
    requires Sound(t, code) && 2 * LiveCount(t) < 2 * |t|
    ensures var r := Refill(Blank(2 * |t|), t, code);
            && Sound(r, code)
            && forall k :: Lookup(r, code, k) == Lookup(t, code, k)
  {
    var u0 := Blank<K, V>(2 * |t|);
    BlankSound<K, V>(2 * |t|, code);
    RefillLookup(u0, t, code);
    forall k ensures LastLive(t, k) == Lookup(t, code, k) {
      LastLiveIs(t, k);
      if LastLive(t, k).Some? {
        var i :| 0 <= i < |t| && HoldsKey(t[i], k) && t[i].value == LastLive(t, k).value;
        SoundLookup(t, code, k, i);
      } else {
        LookupSays(t, code, k);
      }
    }
  }

  /** What Resize builds from a table at most half full: a sound table that
      answers the last live entry of every key, and, when the old table was
      sound, what it answered. */
  lemma ResizeMeans<K, V>(src: seq<Slot<K, V>>, code: K -> int)
    requires |src| > 0 && 2 * LiveCount(src) <= |src|
    ensures var r := Refill(Blank(2 * |src|), src, code);
            && Sound(r, code)
            && (forall k :: Lookup(r, code, k) == LastLive(src, k))
            && (Sound(src, code) ==> forall k :: Lookup(r, code, k) == Lookup(src, code, k))
  {
    BlankSound<K, V>(2 * |src|, code);
    RefillLookup(Blank<K, V>(2 * |src|), src, code);
    if Sound(src, code) {
      ResizeKeepsLookups(src, code);
    }
  }

  /** Insert as written stops at the first tombstone without looking further
      for the key. At capacity 16, with keys hashing to themselves: Insert(1),
      Insert(17) (which probes on to slot 2), Delete(1), Insert(17) (which
      reuses slot 1) leaves 17 live in slots 1 and 2, so the table is no
      longer sound, and after Delete(17) Get(17) still answers the old
      value from slot 2. */
  lemma TombstoneDuplicate()
    ensures var code := (x: int) => x;
            var t1 := Put(Blank(16), code, 1, 10);
            var t2 := Put(t1, code, 17, 20);
            var t3 := Tombstone(t2, 1);
            && |t1| == 16 && LiveCount(t1) == 1 && |t2| == 16 && LiveCount(t2) == 2
            && Locate(t2, Home(t2, code, 1), 1, 0) == Some(1)
            && LiveCount(t3) < |t3|
            && var t4 := Put(t3, code, 17, 30);
            && !Sound(t4, code)
            && Locate(t4, Home(t4, code, 17), 17, 0) == Some(1)
            && Lookup(Tombstone(t4, 1), code, 17) == Some(20)
  {
    var code := (x: int) => x;
    var t0: seq<Slot<int, int>> := Blank(16);
    assert Home(t0, code, 1) == 1 && Home(t0, code, 17) == 1;
    assert Vacancy(t0, 1, 1, 0) == Some(1);
    var t1 := Put(t0, code, 1, 10);
    assert t1 == t0[1 := Entry(1, 10, false)];
    assert Vacancy(t1, 1, 17, 1) == Some(2);
    var t2 := Put(t1, code, 17, 20);
    assert t2 == t1[2 := Entry(17, 20, false)];
    var t3 := Tombstone(t2, 1);
    assert t3 == t2[1 := Entry(1, 10, true)];
    LiveCountUpdate(t0, 1, Entry(1, 10, false));
    LiveCountUpdate(t1, 2, Entry(17, 20, false));
    LiveCountUpdate(t2, 1, Entry(1, 10, true));
    assert LiveCount(t3) == 1;
    assert Locate(t2, 1, 1, 0) == Some(1);
    assert Vacancy(t3, 1, 17, 0) == Some(1);
    var t4 := Put(t3, code, 17, 30);
    assert t4 == t3[1 := Entry(17, 30, false)];
    assert Locate(t4, 1, 17, 0) == Some(1);
    assert Live(t4[2]) && t4[2].key == 17;
    var t5 := Tombstone(t4, 1);
    assert t5[1] == Entry(17, 30, true) && t5[2] == Entry(17, 20, false);
    assert Locate(t5, 1, 17, 1) == Some(2);
  }

  /** With the corrected Insert the same history cannot leave a key behind:
      on a sound table, Insert(key, value) then Delete(key) makes Get(key)
      throw, and the table stays sound. */
  lemma CorrectedDeleteAfterInsert<K, V>(t: seq<Slot<K, V>>, code: K -> int, key: K, value: V)
    requires Sound(t, code) && LiveCount(t) < |t|
    ensures var u := PutCorrected(t, code, key, value);
            && Locate(u, Home(u, code, key), key, 0).Some?
            && var w := Tombstone(u, Locate(u, Home(u, code, key), key, 0).value);
            && Sound(w, code) && Lookup(w, code, key).None?
  {
    PutCorrectedSound(t, code, key, value);
    PutCorrectedLookup(t, code, key, value);
    TombstoneSound(PutCorrected(t, code, key, value), code, key);
  }
}
