/**
 * The chained hash map of ex6/HashMap.hpp: an array of `capacity` buckets of (key, value)
 * entries, a running `size`, growth by doubling when the load factor would pass 3/4 and
 * shrinking by halving when it drops below 1/4, and a forward iterator over the buckets.
 */
module HashMaps {
  import opened Bits
  import opened Wrappers
  import opened Buckets

  /** The capacity of a default-constructed map. */
  const DefaultCapacity: nat := 16

  /** The exceptions the map and its iterator throw. */
  datatype Thrown =
    | OutOfRange    // std::out_of_range
    | StdException  // a plain std::exception

  /** What the writable operator[] hands back: entry `pos` of bucket `bucket`. */
  datatype Cell = Cell(bucket: nat, pos: nat)

  /** Capacity after the growth check for one more entry: (size + 1) / cap > 0.75 doubles it. */
  function GrownCapacity(size: nat, cap: nat): (r: nat)
    ensures r == cap || r == 2 * cap
    ensures r != cap ==> 4 * (size + 1) > 3 * cap
    ensures 0 < cap && 4 * (size + 1) > 3 * cap ==> r == 2 * cap
  {
    if 4 * (size + 1) > 3 * cap then 2 * cap else cap
  }

  /** Capacity after the shrink check on the decremented size: size / cap < 0.25 halves it. */
  function ShrunkCapacity(size: nat, cap: nat): (r: nat)
    ensures r <= cap
    ensures r != cap ==> 4 * size < cap
    ensures 1 < cap && 4 * size < cap ==> r < cap && cap <= 2 * r + 1
  {
    if 4 * size < cap then cap / 2 else cap
  }

  lemma {:induction false} Pow2Sixteen()
    ensures IsPow2(DefaultCapacity)
  {
    assert IsPow2(1) && IsPow2(2) && IsPow2(4) && IsPow2(8);
  }

  /** Growing before an insertion keeps the capacity a power of two and the load at most 3/4. */
  lemma {:induction false} GrowthKeepsLoad(size: nat, cap: nat)
    requires IsPow2(cap) && 4 * size <= 3 * cap
    ensures IsPow2(GrownCapacity(size, cap))
    ensures 4 * (size + 1) <= 3 * GrownCapacity(size, cap)
  {
    DoublePow2(cap);
  }

  /**
   * Shrinking after a removal keeps the capacity a power of two and the load at most 3/4. The
   * removal needed an entry, and at most 3/4 of the old capacity held entries, so the old
   * capacity was at least 2 and halving never reaches 0, although nothing keeps it at 16 or above.
   */
  lemma {:induction false} ShrinkKeepsLoad(size: nat, cap: nat)
    requires IsPow2(cap) && 4 * (size + 1) <= 3 * cap
    ensures ShrunkCapacity(size, cap) >= 1 && IsPow2(ShrunkCapacity(size, cap))
    ensures 4 * size <= 3 * ShrunkCapacity(size, cap)
  {
    assert cap >= 2;
  }

  /** The value the range constructor leaves for k: the one paired with k's last occurrence. */
  function LastValue<K(==), V>(keys: seq<K>, values: seq<V>, k: K): Option<V>
    requires |keys| == |values|
  {
    if |keys| == 0 then None
    else if keys[|keys| - 1] == k then Some(values[|values| - 1])
    else LastValue(keys[..|keys| - 1], values[..|values| - 1], k)
  }

  /** Extending the range by one pair changes the last value of that pair's key only. */
  lemma {:induction false} LastValueStep<K, V>(keys: seq<K>, values: seq<V>, i: nat, k: K)
    requires |keys| == |values| && i < |keys|
    ensures LastValue(keys[..i + 1], values[..i + 1], k)
         == if k == keys[i] then Some(values[i]) else LastValue(keys[..i], values[..i], k)
  {
    assert keys[..i + 1][..i] == keys[..i] && values[..i + 1][..i] == values[..i];
  }

  /** Placing a new entry in a table that holds the same map as `before` adds just that entry. */
  lemma {:induction false} PlaceAfter<K, V>(before: Table<K, V>, mid: Table<K, V>, after: Table<K, V>, hash: K -> nat, e: Entry<K, V>)
    requires WellFormed(mid, hash) && IsPow2(|before|) && after == Place(mid, hash, e)
    requires forall k :: Lookup(mid, hash, k) == Lookup(before, hash, k)
    requires Lookup(before, hash, e.0) == None
    ensures WellFormed(after, hash)
    ensures TotalLen(after) == TotalLen(mid) + 1
    ensures forall k :: Lookup(after, hash, k) == if k == e.0 then Some(e.1) else Lookup(before, hash, k)
  {
    assert Lookup(mid, hash, e.0) == Lookup(before, hash, e.0);
    PlaceNew(mid, hash, e);
  }

  /** The scan of one bucket that every lookup performs: the index of key's entry, or |s|. */
  method ScanBucket<K(==), V>(s: seq<Entry<K, V>>, key: K) returns (j: nat)
    ensures j <= |s|
    ensures j < |s| ==> s[j].0 == key && Find(s, key) == Some(s[j].1)
    ensures j == |s| ==> Find(s, key) == None
  {
    j := 0;
    while j < |s| && s[j].0 != key
      invariant j <= |s|
      invariant Find(s, key) == Find(s[j..], key)
    {
      assert s[j..][1..] == s[j + 1..];
      j := j + 1;
    }
  }

  class HashMap<K(==,!new), V(==)> {
    /** std::hash<KeyT>. */
    const hash: K -> nat
    /** ValueT(), the value the writable operator[] stores for a new key. */
    const newValue: V
    /** _defReturnValue, what the read-only operator[] returns for an absent key. */
    const fallback: V

    /** _hashTable, _capacity and _size. */
    var table: array<seq<Entry<K, V>>>
    var capacity: nat
    var size: nat

    /** The buckets hold `size` entries, each in its home bucket, no key twice. */
    ghost predicate Sound()
      reads this, table
    {
      && table.Length == capacity
      && WellFormed(table[..], hash)
      && size == TotalLen(table[..])
    }

    /** Sound, and the load factor is at most 3/4, which every operation restores. */
    ghost predicate Valid()
      reads this, table
    {
      Sound() && 4 * size <= 3 * capacity
    }

    /** The value stored for k, if any: the abstract content of the map. */
    function Get(k: K): Option<V>
      reads this, table
      requires Valid()
    {
      Lookup(table[..], hash, k)
    }

    /** _hash: the bucket of key, hash(key) & (capacity - 1). */
    function HashIndex(key: K): (i: nat)
      reads this
      requires IsPow2(capacity)
      ensures i < capacity && i == hash(key) % capacity
    {
      BucketOfIsMod(hash(key), capacity);
      BucketOf(hash(key), capacity)
    }

    /** The default constructor: DefaultCapacity empty buckets. */
    constructor (hash: K -> nat, newValue: V, fallback: V)
      ensures Valid() && fresh(table)
      ensures this.hash == hash && this.newValue == newValue && this.fallback == fallback
      ensures capacity == DefaultCapacity && size == 0
      ensures forall k :: Get(k) == None
    {
      this.hash := hash;
      this.newValue := newValue;
      this.fallback := fallback;
      table := new seq<Entry<K, V>>[DefaultCapacity](_ => []);
      capacity := DefaultCapacity;
      size := 0;
      new;
      Pow2Sixteen();
      FlattenOfEmpty(table[..]);
    }

    /** The copy constructor: each bucket of rhs copied entry by entry with push_front. */
    constructor Copy(rhs: HashMap<K, V>, fallback: V)
      requires rhs.Valid()
      ensures Valid() && fresh(table)
      ensures hash == rhs.hash && newValue == rhs.newValue && this.fallback == fallback
      ensures capacity == rhs.capacity && size == rhs.size
      ensures forall i :: 0 <= i < capacity ==> table[i] == Reversed(rhs.table[i])
      ensures forall k :: Get(k) == rhs.Get(k)
      ensures Included(table[..], rhs.table[..])
    {
      var t := new seq<Entry<K, V>>[rhs.capacity](_ => []);
      for i := 0 to rhs.capacity
        invariant forall b :: 0 <= b < i ==> t[b] == Reversed(rhs.table[b])
        invariant forall b :: i <= b < rhs.capacity ==> t[b] == []
      {
        var bucket := rhs.table[i];
        for j := 0 to |bucket|
          invariant t[i] == Reversed(bucket[..j])
          invariant forall b :: 0 <= b < i ==> t[b] == Reversed(rhs.table[b])
          invariant forall b :: i < b < rhs.capacity ==> t[b] == []
        {
          assert bucket[..j + 1][..j] == bucket[..j];
          t[i] := [bucket[j]] + t[i];
        }
        assert bucket[..|bucket|] == bucket;
      }
      hash := rhs.hash;
      newValue := rhs.newValue;
      this.fallback := fallback;
      table := t;
      capacity := rhs.capacity;
      size := rhs.size;
      new;
      CopyIsSameMap(rhs);
      EqualsIffSameMapping(rhs);
    }

    /** A table whose buckets are those of rhs reversed is well formed and holds the same map. */
    lemma {:induction false} CopyIsSameMap(rhs: HashMap<K, V>)
      requires rhs.Valid() && hash == rhs.hash && table.Length == rhs.capacity
      requires capacity == rhs.capacity && size == rhs.size
      requires forall i :: 0 <= i < capacity ==> table[i] == Reversed(rhs.table[i])
      ensures Valid()
      ensures forall k :: Get(k) == rhs.Get(k)
    {
      var t, r := table[..], rhs.table[..];
      forall i | 0 <= i < |t|
        ensures UniqueKeys(t[i]) && multiset(t[i]) == multiset(r[i]) && |t[i]| == |r[i]|
      {
        ReversedUnique(r[i]);
        ReversedMultiset(r[i]);
      }
      forall i, e: Entry<K, V> | 0 <= i < |t| && e in t[i]
        ensures BucketOf(hash(e.0), |t|) == i
      {
        assert e in multiset(r[i]);
      }
      TotalLenLe(t, r, 0);
      TotalLenLe(r, t, 0);
      forall k
        ensures Get(k) == rhs.Get(k)
      {
        ReversedFind(r[BucketOf(hash(k), |r|)], k);
      }
    }

    /** operator=: a deep copy of rhs, keeping each bucket's order; self-assignment does nothing. */
    method Assign(rhs: HashMap<K, V>)
      requires Valid() && rhs.Valid() && rhs.hash == hash
      modifies this
      ensures Valid()
      ensures rhs == this ==> table == old(table)
      ensures rhs != this ==> fresh(table)
      ensures table[..] == old(rhs.table[..])
      ensures size == old(rhs.size) && capacity == old(rhs.capacity)
      ensures forall k :: Get(k) == old(rhs.Get(k))
    {
      if this == rhs {
        return;
      }
      var n := rhs.capacity;
      var t := new seq<Entry<K, V>>[n](_ => []);
      for i := 0 to n
        invariant forall b :: 0 <= b < i ==> t[b] == rhs.table[b]
        invariant forall b :: i <= b < n ==> t[b] == []
      {
        var bucket := rhs.table[i];
        for j := 0 to |bucket|
          invariant t[i] == bucket[..j]
          invariant forall b :: 0 <= b < i ==> t[b] == rhs.table[b]
          invariant forall b :: i < b < n ==> t[b] == []
        {
          t[i] := t[i] + [bucket[j]];
        }
        assert bucket[..|bucket|] == bucket;
      }
      table := t;
      size := rhs.size;
      capacity := n;
      assert table[..] == rhs.table[..];
    }

    /** contains_key. */
    method ContainsKey(key: K) returns (found: bool)
      requires Valid()
      ensures found <==> Get(key).Some?
    {
      var b := HashIndex(key);
      var j := ScanBucket(table[b], key);
      found := j < |table[b]|;
    }

    /** The read-only operator[]: the stored value, or _defReturnValue for an absent key. */
    method Read(key: K) returns (v: V)
      requires Valid()
      ensures Get(key).Some? ==> v == Get(key).value
      ensures Get(key).None? ==> v == fallback
    {
      var b := HashIndex(key);
      var j := ScanBucket(table[b], key);
      if j < |table[b]| {
        return table[b][j].1;
      }
      return fallback;
    }

    /** at: the stored value, or std::out_of_range for an absent key. */
    method At(key: K) returns (r: Result<V, Thrown>)
      requires Valid()
      ensures r.Success? <==> Get(key).Some?
      ensures r.Success? ==> Get(key) == Some(r.value)
      ensures r.Failure? ==> r.error == OutOfRange
    {
      var b := HashIndex(key);
      var j := ScanBucket(table[b], key);
      if j < |table[b]| {
        return Success(table[b][j].1);
      }
      return Failure(OutOfRange);
    }

    /** bucket_size: the length of key's bucket, or std::exception for an absent key. */
    method BucketSize(key: K) returns (r: Result<nat, Thrown>)
      requires Valid()
      ensures r.Success? <==> Get(key).Some?
      ensures r.Success? ==> r.value == |table[hash(key) % capacity]| && r.value >= 1
      ensures r.Failure? ==> r.error == StdException
    {
      var found := ContainsKey(key);
      if found {
        return Success(|table[HashIndex(key)]|);
      }
      return Failure(StdException);
    }

    /** bucket_index: hash(key) mod capacity, or std::exception for an absent key. */
    method BucketIndex(key: K) returns (r: Result<nat, Thrown>)
      requires Valid()
      ensures r.Success? <==> Get(key).Some?
      ensures r.Success? ==> r.value == hash(key) % capacity && r.value < capacity
      ensures r.Failure? ==> r.error == StdException
    {
      var found := ContainsKey(key);
      if found {
        return Success(HashIndex(key));
      }
      return Failure(StdException);
    }

    /** clear: empty every bucket; the capacity stays. */
    method Clear()
      requires Valid()
      modifies table, this`size
      ensures Valid() && capacity == old(capacity)
      ensures size == 0 && forall i :: 0 <= i < capacity ==> table[i] == []
      ensures forall k :: Get(k) == None
    {
      for i := 0 to capacity
        invariant forall b :: 0 <= b < i ==> table[b] == []
      {
        table[i] := [];
      }
      size := 0;
      FlattenOfEmpty(table[..]);
    }

    /**
     * _reHashPrevToCurrent: push every entry of prev, bucket by bucket and front to back, to the
     * head of its bucket in the (empty, freshly allocated) current table.
     */
    method ReHashPrevToCurrent(prev: array<seq<Entry<K, V>>>, prevCapacity: nat)
      requires prev != table && prev.Length == prevCapacity
      requires IsPow2(capacity) && table.Length == capacity
      requires forall i :: 0 <= i < capacity ==> table[i] == []
      modifies table
      ensures table[..] == PlaceAll(EmptyTable(capacity), hash, Flatten(prev[..]))
    {
      ghost var empty := table[..];
      assert empty == EmptyTable(capacity);
      for i := 0 to prevCapacity
        invariant table[..] == PlaceAll(empty, hash, Flatten(prev[..i]))
      {
        var bucket := prev[i];
        ghost var done := Flatten(prev[..i]);
        assert done + bucket[..0] == done;
        for j := 0 to |bucket|
          invariant table[..] == PlaceAll(empty, hash, done + bucket[..j])
        {
          var e := bucket[j];
          var b := HashIndex(e.0);
          ghost var before := table[..];
          table[b] := [e] + table[b];
          assert table[..] == before[b := [e] + before[b]];
          PlaceAllPrefixStep(empty, hash, done, bucket, j);
        }
        assert bucket[..|bucket|] == bucket;
        TotalLenStep(prev[..], i);
        assert prev[..][..i] == prev[..i] && prev[..][..i + 1] == prev[..i + 1];
      }
      assert prev[..prevCapacity] == prev[..];
    }

    /**
     * The reallocation shared by growth and shrinking: a fresh table of newCapacity buckets
     * into which _reHashPrevToCurrent moves every entry of the current one.
     */
    method Resize(newCapacity: nat)
      requires Sound() && IsPow2(newCapacity)
      modifies this
      ensures Sound() && fresh(table)
      ensures capacity == newCapacity && size == old(size)
      ensures table[..] == PlaceAll(EmptyTable(newCapacity), hash, Flatten(old(table[..])))
      ensures multiset(Flatten(table[..])) == multiset(Flatten(old(table[..])))
      ensures forall k :: Lookup(table[..], hash, k) == Lookup(old(table[..]), hash, k)
    {
      var prevTable := table;
      var prevCapacity := capacity;
      capacity := newCapacity;
      table := new seq<Entry<K, V>>[capacity](_ => []);
      ReHashPrevToCurrent(prevTable, prevCapacity);
      Rehash(prevTable[..], hash, capacity);
    }

    /**
     * _addFirstToBucket: for a key known to be absent, grow (double and rehash) when the load
     * factor with one more entry would pass 3/4, then push the entry to the head of its bucket.
     */
    method AddFirstToBucket(key: K, val: V)
      requires Valid() && Get(key) == None
      modifies this, table
      ensures Valid() && (table == old(table) || fresh(table))
      ensures capacity == GrownCapacity(old(size), old(capacity))
      ensures size == old(size) + 1
      ensures table[HashIndex(key)] != [] && table[HashIndex(key)][0] == (key, val)
      ensures forall k :: Get(k) == if k == key then Some(val) else old(Get(k))
    {
      ghost var before := table[..];
      GrowthKeepsLoad(size, capacity);
      if 4 * (size + 1) > 3 * capacity {
        Resize(capacity * 2);
      }
      ghost var mid := table[..];
      assert forall k :: Lookup(mid, hash, k) == Lookup(before, hash, k);
      var b := HashIndex(key);
      table[b] := [(key, val)] + table[b];
      assert table[..] == mid[b := [(key, val)] + mid[b]];
      size := size + 1;
      PlaceAfter(before, mid, table[..], hash, (key, val));
    }

    /** insert: add (key, val) when key is absent; report whether it was added. */
    method Insert(key: K, val: V) returns (inserted: bool)
      requires Valid()
      modifies this, table
      ensures Valid() && (table == old(table) || fresh(table))
      ensures inserted <==> old(Get(key)).None?
      ensures !inserted ==> size == old(size) && capacity == old(capacity)
      ensures !inserted ==> table == old(table) && table[..] == old(table[..])
      ensures inserted ==> size == old(size) + 1 && capacity == GrownCapacity(old(size), old(capacity))
      ensures inserted ==> forall k :: Get(k) == if k == key then Some(val) else old(Get(k))
    {
      var present := ContainsKey(key);
      if !present {
        AddFirstToBucket(key, val);
        return true;
      }
      return false;
    }

    /**
     * The writable operator[]: the cell of key's entry; an absent key is first added with
     * ValueT() through the growth check, and its cell is then the head of its bucket.
     */
    method Index(key: K) returns (cell: Cell)
      requires Valid()
      modifies this, table
      ensures Valid() && (table == old(table) || fresh(table))
      ensures cell.bucket < capacity && cell.pos < |table[cell.bucket]|
      ensures table[cell.bucket][cell.pos].0 == key && Get(key) == Some(table[cell.bucket][cell.pos].1)
      ensures old(Get(key)).Some? ==> size == old(size) && capacity == old(capacity)
      ensures old(Get(key)).Some? ==> table == old(table) && table[..] == old(table[..])
      ensures old(Get(key)).None? ==> cell.pos == 0
      ensures old(Get(key)).None? ==> size == old(size) + 1 && capacity == GrownCapacity(old(size), old(capacity))
      ensures old(Get(key)).None? ==> forall k :: Get(k) == if k == key then Some(newValue) else old(Get(k))
      ensures forall k :: k != key ==> Get(k) == old(Get(k))
    {
      var b := HashIndex(key);
      var j := ScanBucket(table[b], key);
      if j < |table[b]| {
        return Cell(b, j);
      }
      AddFirstToBucket(key, newValue);
      return Cell(HashIndex(key), 0);
    }

    /** Assignment through the reference that operator[] returns: the value at cell becomes v. */
    method WriteCell(cell: Cell, v: V)
      requires Valid() && cell.bucket < capacity && cell.pos < |table[cell.bucket]|
      modifies table
      ensures Valid() && |table[cell.bucket]| == old(|table[cell.bucket]|)
      ensures table[cell.bucket][cell.pos] == (old(table[cell.bucket][cell.pos].0), v)
      ensures forall k :: Get(k) == if k == old(table[cell.bucket][cell.pos].0) then Some(v) else old(Get(k))
    {
      ghost var before := table[..];
      SetValue(before, hash, cell.bucket, cell.pos, v);
      var s := table[cell.bucket];
      table[cell.bucket] := s[cell.pos := (s[cell.pos].0, v)];
      assert table[..] == before[cell.bucket := before[cell.bucket][cell.pos := (s[cell.pos].0, v)]];
      forall k
        ensures Get(k) == if k == s[cell.pos].0 then Some(v) else Lookup(before, hash, k)
      {
        assert Get(k) == Lookup(before[cell.bucket := before[cell.bucket][cell.pos := (s[cell.pos].0, v)]], hash, k);
      }
    }

    /**
     * erase: remove key's entry if there is one, then halve the capacity and rehash when the
     * load factor has dropped below 1/4; report whether an entry was removed.
     */
    method Erase(key: K) returns (removed: bool)
      requires Valid()
      modifies this, table
      ensures Valid() && (table == old(table) || fresh(table))
      ensures removed <==> old(Get(key)).Some?
      ensures !removed ==> size == old(size) && capacity == old(capacity)
      ensures !removed ==> table == old(table) && table[..] == old(table[..])
      ensures removed ==> size == old(size) - 1 && capacity == ShrunkCapacity(size, old(capacity))
      ensures removed ==> forall k :: Get(k) == if k == key then None else old(Get(k))
    {
      var b := HashIndex(key);
      var j := ScanBucket(table[b], key);
      if j == |table[b]| {
        return false;
      }
      var e := table[b][j];
      ghost var before := table[..];
      RemoveEntry(before, hash, e);
      table[b] := RemoveValue(table[b], e);
      size := size - 1;
      assert table[..] == before[b := RemoveValue(before[b], e)];
      ShrinkKeepsLoad(size, capacity);
      if 4 * size < capacity {
        Resize(capacity / 2);
      }
      return true;
    }

    /**
     * operator==: equal sizes and capacities, and every entry of each bucket found in the same
     * bucket of other.
     */
    method Equals(other: HashMap<K, V>) returns (eq: bool)
      requires Valid() && other.Valid()
      ensures eq <==> size == other.size && capacity == other.capacity && Included(table[..], other.table[..])
    {
      if size != other.size || capacity != other.capacity {
        return false;
      }
      for i := 0 to capacity
        invariant forall b, e :: 0 <= b < i && e in table[b] ==> e in other.table[b]
      {
        var bucket := table[i];
        for j := 0 to |bucket|
          invariant forall x :: 0 <= x < j ==> bucket[x] in other.table[i]
        {
          if bucket[j] !in other.table[i] {
            assert !Included(table[..], other.table[..]) by {
              assert bucket[j] in table[..][i];
            }
            return false;
          }
        }
      }
      return true;
    }

    /** operator!=. */
    method NotEquals(other: HashMap<K, V>) returns (ne: bool)
      requires Valid() && other.Valid()
      ensures ne <==> !(size == other.size && capacity == other.capacity && Included(table[..], other.table[..]))
    {
      var eq := Equals(other);
      ne := !eq;
    }

    /**
     * What operator== decides: for maps with one hash function, being equal is holding the same
     * key-value mapping in the same capacity; neither bucket order nor history matters.
     */
    lemma {:induction false} EqualsIffSameMapping(other: HashMap<K, V>)
      requires Valid() && other.Valid() && other.hash == hash
      ensures (size == other.size && capacity == other.capacity && Included(table[..], other.table[..]))
          <==> (capacity == other.capacity && forall k :: Get(k) == other.Get(k))
    {
      if capacity == other.capacity {
        if forall k :: Get(k) == other.Get(k) {
          forall k
            ensures Lookup(table[..], hash, k) == Lookup(other.table[..], hash, k)
          {
            assert Get(k) == other.Get(k);
          }
          SameLookupSameSize(table[..], other.table[..], hash);
        }
        if size == other.size {
          IncludedIffSameLookup(table[..], other.table[..], hash);
        }
      }
    }

    /** begin(): an iterator on the first entry of the first non-empty bucket, or on end. */
    method Begin() returns (it: ConstIterator<K, V>)
      requires Valid()
      ensures fresh(it) && it.buckets == table && it.Valid() && it.Position() == 0
      ensures it.AtEnd() <==> size == 0
    {
      it := new ConstIterator(table, 0);
      EmptyIffZero(table[..], 0);
      assert table[..][..0] == [];
    }

    /** end(): the iterator one past the last bucket. */
    method End() returns (it: ConstIterator<K, V>)
      requires Valid()
      ensures fresh(it) && it.buckets == table && it.Valid() && it.AtEnd() && it.Position() == size
    {
      it := new ConstIterator(table, capacity);
    }

    /**
     * A walk from begin() meets the entries in the order of Flatten(table[..]): one per stored
     * entry, no key twice, and exactly the pairs that lookups find.
     */
    lemma {:induction false} IterationVisitsEachEntryOnce()
      requires Valid()
      ensures |Flatten(table[..])| == size
      ensures UniqueKeys(Flatten(table[..]))
      ensures forall k, v :: (k, v) in Flatten(table[..]) <==> Get(k) == Some(v)
    {
      FlattenLen(table[..]);
      FlattenUnique(table[..], hash, capacity);
      forall k, v
        ensures (k, v) in Flatten(table[..]) <==> Get(k) == Some(v)
      {
        LookupMember(table[..], hash, k, v);
      }
    }
  }

  /**
   * The range constructor: std::exception when the key and value counts differ, before anything
   * is built; otherwise a default map into which operator[] writes each value for its key.
   */
  method FromRange<K(==,!new), V(==)>(hash: K -> nat, newValue: V, fallback: V, keys: seq<K>, values: seq<V>)
    returns (r: Result<HashMap<K, V>, Thrown>)
    ensures r.Failure? <==> |keys| != |values|
    ensures r.Failure? ==> r.error == StdException
    ensures r.Success? ==> fresh(r.value) && fresh(r.value.table) && r.value.Valid()
    ensures r.Success? ==> r.value.hash == hash && r.value.newValue == newValue && r.value.fallback == fallback
    ensures r.Success? ==> forall k :: r.value.Get(k) == LastValue(keys, values, k)
  {
    if |keys| != |values| {
      return Failure(StdException);
    }
    var m := new HashMap(hash, newValue, fallback);
    for i := 0 to |keys|
      invariant fresh(m) && fresh(m.table) && m.Valid()
      invariant m.hash == hash && m.newValue == newValue && m.fallback == fallback
      invariant forall k :: m.Get(k) == LastValue(keys[..i], values[..i], k)
    {
      var cell := m.Index(keys[i]);
      m.WriteCell(cell, values[i]);
      forall k
        ensures m.Get(k) == LastValue(keys[..i + 1], values[..i + 1], k)
      {
        LastValueStep(keys, values, i, k);
      }
    }
    assert keys[..|keys|] == keys && values[..|values|] == values;
    return Success(m);
  }

  /**
   * ConstIterator: a cursor (bucket, pos) over a bucket array; bucket == buckets.Length is end.
   */
  class ConstIterator<K, V> {
    /** _curBucket and _endOfBuckets address this array; _curDataIt is entry pos of the bucket. */
    const buckets: array<seq<Entry<K, V>>>
    var bucket: nat
    var pos: nat

    ghost predicate Valid()
      reads this, buckets
    {
      bucket <= buckets.Length && (bucket < buckets.Length ==> pos < |buckets[bucket]|)
    }

    predicate AtEnd()
      reads this
    {
      bucket == buckets.Length
    }

    /** How many entries a walk has passed: the index of the current entry in Flatten. */
    ghost function Position(): nat
      reads this, buckets
      requires Valid()
    {
      if AtEnd() then TotalLen(buckets[..]) else TotalLen(buckets[..bucket]) + pos
    }

    /** The two-pointer constructor: start at bucket `from` and skip empty buckets. */
    constructor (start: array<seq<Entry<K, V>>>, from: nat)
      requires from <= start.Length
      ensures buckets == start && Valid()
      ensures Position() == TotalLen(start[..from])
      ensures AtEnd() <==> forall j :: from <= j < start.Length ==> start[j] == []
    {
      buckets := start;
      bucket, pos := from, 0;
      new;
      while bucket != start.Length
        invariant from <= bucket <= start.Length && pos == 0
        invariant forall j :: from <= j < bucket ==> start[j] == []
      {
        if start[bucket] != [] {
          SkipEmpty(start[..], from, bucket);
          assert start[..][..bucket] == start[..bucket] && start[..][..from] == start[..from];
          return;
        }
        bucket := bucket + 1;
      }
      SkipEmpty(start[..], from, bucket);
      assert start[..][..bucket] == start[..] && start[..][..from] == start[..from];
    }

    /** operator*: the current entry, which is entry Position() of the walk; out_of_range at end. */
    function Deref(): (r: Result<Entry<K, V>, Thrown>)
      reads this, buckets
      requires Valid()
      ensures r.Failure? <==> AtEnd()
      ensures r.Failure? ==> r.error == OutOfRange
      ensures r.Success? ==> Position() < |Flatten(buckets[..])| && r.value == Flatten(buckets[..])[Position()]
    {
      if bucket == buckets.Length then Failure(OutOfRange)
      else
        FlattenAt(buckets[..], bucket, pos);
        assert buckets[..][..bucket] == buckets[..bucket];
        Success(buckets[bucket][pos])
    }

    /**
     * operator++: the next entry of the bucket, else the head of the next non-empty bucket, else
     * end; out_of_range when already at end.
     */
    method Next() returns (r: Outcome<Thrown>)
      requires Valid()
      modifies this
      ensures Valid()
      ensures old(AtEnd()) ==> r == Fail(OutOfRange) && bucket == old(bucket) && pos == old(pos)
      ensures !old(AtEnd()) ==> r == Pass && Position() == old(Position()) + 1
    {
      if bucket == buckets.Length {
        return Fail(OutOfRange);
      }
      ghost var target := TotalLen(buckets[..bucket]) + pos + 1;
      if pos < |buckets[bucket]| {
        pos := pos + 1;
        if pos < |buckets[bucket]| {
          return Pass;
        }
      }
      TotalLenStep(buckets[..], bucket);
      assert buckets[..][..bucket] == buckets[..bucket] && buckets[..][..bucket + 1] == buckets[..bucket + 1];
      var from := bucket + 1;
      bucket := bucket + 1;
      while bucket != buckets.Length
        invariant from <= bucket <= buckets.Length
        invariant forall j :: from <= j < bucket ==> buckets[j] == []
        invariant TotalLen(buckets[..from]) == target
      {
        if buckets[bucket] != [] {
          pos := 0;
          SkipEmpty(buckets[..], from, bucket);
          assert buckets[..][..bucket] == buckets[..bucket] && buckets[..][..from] == buckets[..from];
          return Pass;
        }
        bucket := bucket + 1;
      }
      SkipEmpty(buckets[..], from, bucket);
      assert buckets[..][..bucket] == buckets[..] && buckets[..][..from] == buckets[..from];
      return Pass;
    }

    /** The iterator is at end exactly when a walk has passed every entry. */
    lemma {:induction false} AtEndIffAllPassed()
      requires Valid()
      ensures AtEnd() <==> Position() == TotalLen(buckets[..])
    {
      if !AtEnd() {
        FlattenAt(buckets[..], bucket, pos);
        assert buckets[..][..bucket] == buckets[..bucket];
      }
    }

    /** operator==: the same bucket pointer, and at end or on the same list position. */
    predicate Equals(other: ConstIterator<K, V>): (r: bool)
      reads this, other
      ensures r ==> buckets == other.buckets && (AtEnd() <==> other.AtEnd())
    {
      buckets == other.buckets && bucket == other.bucket && (bucket == buckets.Length || pos == other.pos)
    }

    /** Two iterators over one bucket array are equal exactly when a walk has passed as many entries. */
    lemma {:induction false} EqualsIffSamePosition(other: ConstIterator<K, V>)
      requires Valid() && other.Valid() && buckets == other.buckets
      ensures Equals(other) <==> Position() == other.Position()
    {
      var t := buckets[..];
      assert t[..buckets.Length] == t;
      if bucket < other.bucket {
        PositionOrder(t, bucket, pos, other.bucket);
        FlattenPrefix(t, other.bucket);
        assert t[..bucket] == buckets[..bucket] && t[..other.bucket] == buckets[..other.bucket];
      } else if other.bucket < bucket {
        PositionOrder(t, other.bucket, other.pos, bucket);
        FlattenPrefix(t, bucket);
        assert t[..bucket] == buckets[..bucket] && t[..other.bucket] == buckets[..other.bucket];
      }
    }
  }
}
