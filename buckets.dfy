/**
 * The bucket array of a chained hash table as a value: a sequence of buckets, each an ordered
 * sequence of (key, value) entries. The specification functions here describe what the
 * in-place operations of HashMaps.HashMap do to the table.
 */
module Buckets {
  import opened Bits
  import opened Wrappers

  type Entry<K, V> = (K, V)
  type Table<K, V> = seq<seq<Entry<K, V>>>

  /** The bucket of a key whose hash is h: h & (cap - 1), a valid bucket index. */
  function BucketOf(h: nat, cap: nat): (i: nat)
    requires IsPow2(cap)
    ensures i < cap
  {
    MaskIsMod(h, cap);
    BitAnd(h, cap - 1)
  }

  /** Because cap is a power of two, masking picks the bucket h mod cap. */
  lemma {:induction false} BucketOfIsMod(h: nat, cap: nat)
    requires IsPow2(cap)
    ensures BucketOf(h, cap) == h % cap
  {
    MaskIsMod(h, cap);
  }

  /** A table of cap empty buckets. */
  function EmptyTable<K, V>(cap: nat): Table<K, V>
  {
    seq(cap, _ => [])
  }

  /** The value of the first entry of s whose key is k. */
  function Find<K(==), V>(s: seq<Entry<K, V>>, k: K): Option<V>
  {
    if |s| == 0 then None
    else if s[0].0 == k then Some(s[0].1)
    else Find(s[1..], k)
  }

  /** No two entries of s share a key. */
  ghost predicate UniqueKeys<K, V>(s: seq<Entry<K, V>>)
  {
    forall i, j :: 0 <= i < j < |s| ==> s[i].0 != s[j].0
  }

  /** All entries of the table, bucket by bucket: the order in which an iterator visits them. */
  function Flatten<K, V>(t: Table<K, V>): seq<Entry<K, V>>
  {
    if |t| == 0 then [] else Flatten(t[..|t| - 1]) + t[|t| - 1]
  }

  /** The sum of the bucket lengths. */
  function TotalLen<K, V>(t: Table<K, V>): nat
  {
    if |t| == 0 then 0 else TotalLen(t[..|t| - 1]) + |t[|t| - 1]|
  }

  /** Every entry of bucket i has its key's home bucket under capacity cap equal to i. */
  ghost predicate Homed<K, V>(t: Table<K, V>, hash: K -> nat, cap: nat)
    requires IsPow2(cap)
  {
    forall i, e :: 0 <= i < |t| && e in t[i] ==> BucketOf(hash(e.0), cap) == i
  }

  /** The table invariant: power-of-two length, every entry in its home bucket, keys unique per bucket. */
  ghost predicate WellFormed<K, V>(t: Table<K, V>, hash: K -> nat)
  {
    && IsPow2(|t|)
    && Homed(t, hash, |t|)
    && forall i :: 0 <= i < |t| ==> UniqueKeys(t[i])
  }

  /** What a lookup of k finds: a scan of k's home bucket. */
  function Lookup<K(==), V>(t: Table<K, V>, hash: K -> nat, k: K): Option<V>
    requires IsPow2(|t|)
  {
    Find(t[BucketOf(hash(k), |t|)], k)
  }

  /** Push e to the head of its home bucket. */
  function Place<K, V>(t: Table<K, V>, hash: K -> nat, e: Entry<K, V>): (r: Table<K, V>)
    requires IsPow2(|t|)
    ensures |r| == |t|
  {
    var i := BucketOf(hash(e.0), |t|);
    t[i := [e] + t[i]]
  }

  /** Push the entries of es, first to last, each to the head of its home bucket. */
  function PlaceAll<K, V>(t: Table<K, V>, hash: K -> nat, es: seq<Entry<K, V>>): (r: Table<K, V>)
    requires IsPow2(|t|)
    ensures |r| == |t|
  {
    if |es| == 0 then t
    else Place(PlaceAll(t, hash, es[..|es| - 1]), hash, es[|es| - 1])
  }

  /** s without every entry equal to e (std::list::remove). */
  function RemoveValue<K(==), V(==)>(s: seq<Entry<K, V>>, e: Entry<K, V>): seq<Entry<K, V>>
  {
    if |s| == 0 then []
    else if s[0] == e then RemoveValue(s[1..], e)
    else [s[0]] + RemoveValue(s[1..], e)
  }

  /** s in reverse order: what pushing its entries one by one to the front of an empty list gives. */
  function Reversed<T>(s: seq<T>): seq<T>
  {
    if |s| == 0 then [] else [s[|s| - 1]] + Reversed(s[..|s| - 1])
  }

  // ----- Lemmas about one bucket -----

  /** In a bucket with unique keys, a lookup finds v for k exactly when (k, v) is stored. */
  lemma {:induction false} FindMember<K, V>(s: seq<Entry<K, V>>, k: K, v: V)
    requires UniqueKeys(s)
    ensures Find(s, k) == Some(v) <==> (k, v) in s
  {
    if |s| > 0 {
      if s[0].0 != k {
        assert UniqueKeys(s[1..]);
        FindMember(s[1..], k, v);
        assert (k, v) in s <==> (k, v) in s[1..] by {
          assert s == [s[0]] + s[1..];
        }
      }
    }
  }

  /** A lookup finds nothing exactly when no entry has key k. */
  lemma {:induction false} FindAbsent<K, V>(s: seq<Entry<K, V>>, k: K)
    ensures Find(s, k) == None <==> forall e :: e in s ==> e.0 != k
  {
    if |s| > 0 {
      FindAbsent(s[1..], k);
      assert s == [s[0]] + s[1..];
    }
  }

  // ----- Lemmas about the whole table -----

  /** Iteration visits exactly as many entries as the bucket lengths add up to. */
  lemma {:induction false} FlattenLen<K, V>(t: Table<K, V>)
    ensures |Flatten(t)| == TotalLen(t)
  {
    if |t| > 0 {
      FlattenLen(t[..|t| - 1]);
    }
  }

  /** An entry is visited by iteration exactly when some bucket holds it. */
  lemma {:induction false} FlattenMember<K, V>(t: Table<K, V>, e: Entry<K, V>)
    ensures e in Flatten(t) <==> exists i :: 0 <= i < |t| && e in t[i]
  {
    if |t| > 0 {
      var n := |t| - 1;
      FlattenMember(t[..n], e);
      assert forall i :: 0 <= i < n ==> t[..n][i] == t[i];
    }
  }

  /** Replacing bucket i by b swaps t[i]'s entries for b's in the table's multiset of entries. */
  lemma {:induction false} FlattenUpdate<K, V>(t: Table<K, V>, i: nat, b: seq<Entry<K, V>>)
    requires i < |t|
    ensures multiset(Flatten(t[i := b])) + multiset(t[i]) == multiset(Flatten(t)) + multiset(b)
  {
    var n := |t| - 1;
    var u := t[i := b];
    if i == n {
      assert u[..n] == t[..n];
    } else {
      assert u[..n] == t[..n][i := b];
      FlattenUpdate(t[..n], i, b);
      assert t[..n][i] == t[i];
      calc {
        multiset(Flatten(u)) + multiset(t[i]);
        multiset(Flatten(u[..n]) + t[n]) + multiset(t[i]);
        multiset(Flatten(u[..n])) + multiset(t[..n][i]) + multiset(t[n]);
        multiset(Flatten(t[..n])) + multiset(b) + multiset(t[n]);
        multiset(Flatten(t[..n]) + t[n]) + multiset(b);
      }
    }
  }

  /** Replacing bucket i by b changes the total length by |b| - |t[i]|. */
  lemma {:induction false} TotalLenUpdate<K, V>(t: Table<K, V>, i: nat, b: seq<Entry<K, V>>)
    requires i < |t|
    ensures TotalLen(t[i := b]) + |t[i]| == TotalLen(t) + |b|
  {
    FlattenUpdate(t, i, b);
    FlattenLen(t);
    FlattenLen(t[i := b]);
    assert |multiset(Flatten(t[i := b])) + multiset(t[i])| == |multiset(Flatten(t)) + multiset(b)|;
  }

  /** A table of empty buckets holds nothing. */
  lemma {:induction false} FlattenOfEmpty<K, V>(t: Table<K, V>)
    requires forall i :: 0 <= i < |t| ==> t[i] == []
    ensures Flatten(t) == [] && TotalLen(t) == 0
  {
    if |t| > 0 {
      FlattenOfEmpty(t[..|t| - 1]);
    }
  }

  /** In a well-formed table the bucket-local lookup agrees with membership in the whole table. */
  lemma {:induction false} LookupMember<K, V>(t: Table<K, V>, hash: K -> nat, k: K, v: V)
    requires WellFormed(t, hash)
    ensures Lookup(t, hash, k) == Some(v) <==> (k, v) in Flatten(t)
  {
    var b := BucketOf(hash(k), |t|);
    FindMember(t[b], k, v);
    FlattenMember(t, (k, v));
  }

  /** Buckets homed under one capacity never share a key, so no key occurs twice in the table. */
  lemma {:induction false} FlattenUnique<K, V>(t: Table<K, V>, hash: K -> nat, cap: nat)
    requires IsPow2(cap) && Homed(t, hash, cap)
    requires forall i :: 0 <= i < |t| ==> UniqueKeys(t[i])
    ensures UniqueKeys(Flatten(t))
  {
    if |t| > 0 {
      var n := |t| - 1;
      var a := Flatten(t[..n]);
      assert forall i :: 0 <= i < n ==> t[..n][i] == t[i];
      FlattenUnique(t[..n], hash, cap);
      var f := Flatten(t);
      assert f == a + t[n];
      forall i, j | 0 <= i < j < |f|
        ensures f[i].0 != f[j].0
      {
        if i < |a| && j >= |a| {
          FlattenMember(t[..n], a[i]);
          var i' :| 0 <= i' < n && a[i] in t[..n][i'];
          assert BucketOf(hash(a[i].0), cap) == i';
          assert f[j] in t[n];
        }
      }
    }
  }

  /** Two well-formed tables holding the same entries answer every lookup alike. */
  lemma {:induction false} SameEntriesSameLookup<K, V>(t1: Table<K, V>, t2: Table<K, V>, hash: K -> nat)
    requires WellFormed(t1, hash) && WellFormed(t2, hash)
    requires multiset(Flatten(t1)) == multiset(Flatten(t2))
    ensures forall k :: Lookup(t1, hash, k) == Lookup(t2, hash, k)
  {
    forall k
      ensures Lookup(t1, hash, k) == Lookup(t2, hash, k)
    {
      match Lookup(t1, hash, k)
      case Some(v) =>
        LookupMember(t1, hash, k, v);
        LookupMember(t2, hash, k, v);
        assert (k, v) in multiset(Flatten(t1));
      case None =>
        forall w
          ensures Lookup(t2, hash, k) != Some(w)
        {
          LookupMember(t1, hash, k, w);
          LookupMember(t2, hash, k, w);
          assert (k, w) in Flatten(t2) ==> (k, w) in multiset(Flatten(t2));
        }
    }
  }

  /** Prepending an entry whose key no entry of b has keeps keys unique. */
  lemma {:induction false} PrependUnique<K, V>(b: seq<Entry<K, V>>, e: Entry<K, V>)
    requires UniqueKeys(b) && forall x :: x in b ==> x.0 != e.0
    ensures UniqueKeys([e] + b)
  {
    var c := [e] + b;
    forall x, y | 0 <= x < y < |c|
      ensures c[x].0 != c[y].0
    {
      assert c[y] == b[y - 1];
      if x > 0 {
        assert c[x] == b[x - 1];
      }
    }
  }

  /** Pushing an entry whose key is absent keeps the table well formed. */
  lemma {:induction false} PlaceNewWellFormed<K, V>(t: Table<K, V>, hash: K -> nat, e: Entry<K, V>)
    requires WellFormed(t, hash) && Lookup(t, hash, e.0) == None
    ensures WellFormed(Place(t, hash, e), hash)
  {
    var i := BucketOf(hash(e.0), |t|);
    var u := Place(t, hash, e);
    FindAbsent(t[i], e.0);
    PrependUnique(t[i], e);
    forall j, x: Entry<K, V> | 0 <= j < |u| && x in u[j]
      ensures BucketOf(hash(x.0), |u|) == j
    {
      if j == i && x != e {
        assert x in t[i];
      }
    }
  }

  /** After pushing (k, v) for an absent k, k maps to v and every other key is unaffected. */
  lemma {:induction false} PlaceNewLookup<K, V>(t: Table<K, V>, hash: K -> nat, e: Entry<K, V>)
    requires IsPow2(|t|)
    ensures forall k :: Lookup(Place(t, hash, e), hash, k) == if k == e.0 then Some(e.1) else Lookup(t, hash, k)
  {
    var i := BucketOf(hash(e.0), |t|);
    assert ([e] + t[i])[1..] == t[i];
  }

  /** Pushing an entry whose key is absent adds exactly that entry and keeps the table well formed. */
  lemma {:induction false} PlaceNew<K, V>(t: Table<K, V>, hash: K -> nat, e: Entry<K, V>)
    requires WellFormed(t, hash) && Lookup(t, hash, e.0) == None
    ensures WellFormed(Place(t, hash, e), hash)
    ensures multiset(Flatten(Place(t, hash, e))) == multiset(Flatten(t)) + multiset{e}
    ensures TotalLen(Place(t, hash, e)) == TotalLen(t) + 1
    ensures forall k :: Lookup(Place(t, hash, e), hash, k) == if k == e.0 then Some(e.1) else Lookup(t, hash, k)
  {
    PlaceNewWellFormed(t, hash, e);
    PlaceNewLookup(t, hash, e);
    var i := BucketOf(hash(e.0), |t|);
    var b := [e] + t[i];
    assert Place(t, hash, e) == t[i := b];
    FlattenUpdate(t, i, b);
    assert multiset(b) == multiset{e} + multiset(t[i]);
    MultisetCancel(multiset(Flatten(t[i := b])), multiset(Flatten(t)) + multiset{e}, multiset(t[i]));
    TotalLenUpdate(t, i, b);
  }

  lemma {:induction false} MultisetCancel<T>(a: multiset<T>, b: multiset<T>, x: multiset<T>)
    requires a + x == b + x
    ensures a == b
  {
    forall z
      ensures a[z] == b[z]
    {
      assert (a + x)[z] == (b + x)[z];
    }
  }

  /** A key that neither t nor front has is absent from a table holding exactly their entries. */
  lemma {:induction false} AbsentFromUnion<K, V>(t: Table<K, V>, u: Table<K, V>, hash: K -> nat, front: seq<Entry<K, V>>, k: K)
    requires WellFormed(u, hash)
    requires multiset(Flatten(u)) == multiset(Flatten(t)) + multiset(front)
    requires forall x :: x in Flatten(t) ==> x.0 != k
    requires forall x :: x in front ==> x.0 != k
    ensures Lookup(u, hash, k) == None
  {
    forall v
      ensures Lookup(u, hash, k) != Some(v)
    {
      LookupMember(u, hash, k, v);
      assert (k, v) in Flatten(u) ==> (k, v) in multiset(Flatten(u));
    }
  }

  /** Pushing one more entry after es is pushing it onto the table PlaceAll built from es. */
  lemma {:induction false} PlaceAllSnoc<K, V>(t: Table<K, V>, hash: K -> nat, es: seq<Entry<K, V>>, e: Entry<K, V>)
    requires IsPow2(|t|)
    ensures PlaceAll(t, hash, es + [e]) == Place(PlaceAll(t, hash, es), hash, e)
  {
    assert (es + [e])[..|es|] == es;
  }

  /** Pushing entry j of a bucket after es and the bucket's first j entries. */
  lemma {:induction false} PlaceAllPrefixStep<K, V>(t: Table<K, V>, hash: K -> nat, es: seq<Entry<K, V>>, bucket: seq<Entry<K, V>>, j: nat)
    requires IsPow2(|t|) && j < |bucket|
    ensures PlaceAll(t, hash, es + bucket[..j + 1]) == Place(PlaceAll(t, hash, es + bucket[..j]), hash, bucket[j])
  {
    var front := es + bucket[..j];
    assert bucket[..j + 1] == bucket[..j] + [bucket[j]];
    assert es + bucket[..j + 1] == front + [bucket[j]];
    PlaceAllSnoc(t, hash, front, bucket[j]);
  }

  /** The last entry of a sequence without repeated keys has a key that no earlier entry has. */
  lemma {:induction false} LastKeyFresh<K, V>(es: seq<Entry<K, V>>)
    requires |es| > 0 && UniqueKeys(es)
    ensures forall x :: x in es[..|es| - 1] ==> x.0 != es[|es| - 1].0
  {
    var n := |es| - 1;
    forall x | x in es[..n]
      ensures x.0 != es[n].0
    {
      var j :| 0 <= j < n && es[..n][j] == x;
      assert es[j] == x;
    }
  }

  /** One step of PlaceAllFresh: pushing an entry whose key neither t nor front has. */
  lemma {:induction false} PlaceFreshStep<K, V>(t: Table<K, V>, u: Table<K, V>, hash: K -> nat, front: seq<Entry<K, V>>, e: Entry<K, V>)
    requires WellFormed(u, hash)
    requires multiset(Flatten(u)) == multiset(Flatten(t)) + multiset(front)
    requires forall x :: x in Flatten(t) ==> x.0 != e.0
    requires forall x :: x in front ==> x.0 != e.0
    ensures WellFormed(Place(u, hash, e), hash)
    ensures multiset(Flatten(Place(u, hash, e))) == multiset(Flatten(t)) + multiset(front + [e])
  {
    AbsentFromUnion(t, u, hash, front, e.0);
    PlaceNew(u, hash, e);
  }

  /** Pushing entries with fresh, pairwise distinct keys adds exactly those entries. */
  lemma {:induction false} PlaceAllFresh<K, V>(t: Table<K, V>, hash: K -> nat, es: seq<Entry<K, V>>)
    requires WellFormed(t, hash) && UniqueKeys(es)
    requires forall e, x :: e in es && x in Flatten(t) ==> e.0 != x.0
    ensures WellFormed(PlaceAll(t, hash, es), hash)
    ensures multiset(Flatten(PlaceAll(t, hash, es))) == multiset(Flatten(t)) + multiset(es)
  {
    if |es| > 0 {
      var n := |es| - 1;
      var front, e := es[..n], es[n];
      assert es == front + [e];
      assert UniqueKeys(front);
      forall x, y | x in front && y in Flatten(t)
        ensures x.0 != y.0
      {
        assert x in es;
      }
      PlaceAllFresh(t, hash, front);
      LastKeyFresh(es);
      assert e in es;
      PlaceFreshStep(t, PlaceAll(t, hash, front), hash, front, e);
      PlaceAllSnoc(t, hash, front, e);
    }
  }

  /**
   * Rehashing the entries of a well-formed table, in iteration order, into cap empty buckets
   * loses and duplicates nothing and leaves every lookup unchanged.
   */
  lemma {:induction false} Rehash<K, V>(t: Table<K, V>, hash: K -> nat, cap: nat)
    requires WellFormed(t, hash) && IsPow2(cap)
    ensures WellFormed(PlaceAll(EmptyTable(cap), hash, Flatten(t)), hash)
    ensures multiset(Flatten(PlaceAll(EmptyTable(cap), hash, Flatten(t)))) == multiset(Flatten(t))
    ensures TotalLen(PlaceAll(EmptyTable(cap), hash, Flatten(t))) == TotalLen(t)
    ensures forall k :: Lookup(PlaceAll(EmptyTable(cap), hash, Flatten(t)), hash, k) == Lookup(t, hash, k)
  {
    var z: Table<K, V> := EmptyTable(cap);
    FlattenOfEmpty(z);
    FlattenUnique(t, hash, |t|);
    PlaceAllFresh(z, hash, Flatten(t));
    var r := PlaceAll(z, hash, Flatten(t));
    FlattenLen(r);
    FlattenLen(t);
    assert |multiset(Flatten(r))| == |multiset(Flatten(t))|;
    SameEntriesSameLookup(r, t, hash);
  }

  // ----- Removal -----

  /** Removing a value that does not occur changes nothing. */
  lemma {:induction false} RemoveAbsent<K, V>(s: seq<Entry<K, V>>, e: Entry<K, V>)
    requires e !in s
    ensures RemoveValue(s, e) == s
  {
    if |s| > 0 {
      assert s == [s[0]] + s[1..];
      RemoveAbsent(s[1..], e);
    }
  }

  /** Unique keys in a + b means unique keys in each part and no key shared between them. */
  lemma {:induction false} UniqueSplit<K, V>(a: seq<Entry<K, V>>, b: seq<Entry<K, V>>)
    requires UniqueKeys(a + b)
    ensures UniqueKeys(a) && UniqueKeys(b)
    ensures forall x, y :: x in a && y in b ==> x.0 != y.0
  {
    var c := a + b;
    assert forall i :: 0 <= i < |a| ==> c[i] == a[i];
    assert forall j :: 0 <= j < |b| ==> c[|a| + j] == b[j];
  }

  /** Removal only drops entries. */
  lemma {:induction false} RemoveValueSubset<K, V>(s: seq<Entry<K, V>>, e: Entry<K, V>)
    ensures forall x :: x in RemoveValue(s, e) ==> x in s
  {
    if |s| > 0 {
      RemoveValueSubset(s[1..], e);
    }
  }

  /** In a bucket with unique keys that holds e, std::list::remove(e) drops exactly one entry. */
  lemma {:induction false} RemoveOneCount<K, V>(s: seq<Entry<K, V>>, e: Entry<K, V>)
    requires UniqueKeys(s) && e in s
    ensures multiset(RemoveValue(s, e)) + multiset{e} == multiset(s)
  {
    var tail := s[1..];
    assert s == [s[0]] + tail;
    UniqueSplit([s[0]], tail);
    if s[0] == e {
      RemoveAbsent(tail, e);
    } else {
      RemoveOneCount(tail, e);
    }
  }

  /** Removal keeps keys unique. */
  lemma {:induction false} RemoveUnique<K, V>(s: seq<Entry<K, V>>, e: Entry<K, V>)
    requires UniqueKeys(s)
    ensures UniqueKeys(RemoveValue(s, e))
  {
    if |s| > 0 {
      var tail := s[1..];
      assert s == [s[0]] + tail;
      UniqueSplit([s[0]], tail);
      RemoveUnique(tail, e);
      if s[0] != e {
        RemoveValueSubset(tail, e);
        PrependUnique(RemoveValue(tail, e), s[0]);
      }
    }
  }

  /** After removing e, e's key is absent and every other key is found as before. */
  lemma {:induction false} RemoveFind<K, V>(s: seq<Entry<K, V>>, e: Entry<K, V>, k: K)
    requires UniqueKeys(s) && e in s
    ensures Find(RemoveValue(s, e), k) == if k == e.0 then None else Find(s, k)
  {
    var tail := s[1..];
    assert s == [s[0]] + tail;
    UniqueSplit([s[0]], tail);
    if s[0] == e {
      RemoveAbsent(tail, e);
      FindAbsent(tail, e.0);
    } else {
      RemoveFind(tail, e, k);
      assert ([s[0]] + RemoveValue(tail, e))[1..] == RemoveValue(tail, e);
    }
  }

  /** Erasing the entry e from its home bucket removes exactly e from the table. */
  lemma {:induction false} RemoveEntry<K, V>(t: Table<K, V>, hash: K -> nat, e: Entry<K, V>)
    requires WellFormed(t, hash)
    requires e in t[BucketOf(hash(e.0), |t|)]
    ensures var i := BucketOf(hash(e.0), |t|);
      var u := t[i := RemoveValue(t[i], e)];
      && WellFormed(u, hash)
      && TotalLen(u) + 1 == TotalLen(t)
      && forall k :: Lookup(u, hash, k) == if k == e.0 then None else Lookup(t, hash, k)
  {
    var i := BucketOf(hash(e.0), |t|);
    var r := RemoveValue(t[i], e);
    var u := t[i := r];
    RemoveOneCount(t[i], e);
    RemoveUnique(t[i], e);
    RemoveValueSubset(t[i], e);
    forall k
      ensures Lookup(u, hash, k) == if k == e.0 then None else Lookup(t, hash, k)
    {
      RemoveFind(t[i], e, k);
    }
    TotalLenUpdate(t, i, r);
    assert |multiset(r) + multiset{e}| == |multiset(t[i])|;
  }

  // ----- Reversal (copying a bucket with push_front) -----

  lemma {:induction false} ReversedMultiset<T>(s: seq<T>)
    ensures multiset(Reversed(s)) == multiset(s) && |Reversed(s)| == |s|
  {
    if |s| > 0 {
      var n := |s| - 1;
      ReversedMultiset(s[..n]);
      assert s == s[..n] + [s[n]];
    }
  }

  /** A reversed bucket keeps unique keys. */
  lemma {:induction false} ReversedUnique<K, V>(s: seq<Entry<K, V>>)
    requires UniqueKeys(s)
    ensures UniqueKeys(Reversed(s))
  {
    if |s| > 0 {
      var n := |s| - 1;
      var front := s[..n];
      assert s == front + [s[n]];
      UniqueSplit(front, [s[n]]);
      ReversedUnique(front);
      ReversedMultiset(front);
      var r := Reversed(front);
      assert forall x :: x in r ==> x in multiset(front);
      PrependUnique(r, s[n]);
    }
  }

  /** A reversed bucket answers every lookup as before. */
  lemma {:induction false} ReversedFind<K, V>(s: seq<Entry<K, V>>, k: K)
    requires UniqueKeys(s)
    ensures Find(Reversed(s), k) == Find(s, k)
  {
    ReversedUnique(s);
    ReversedMultiset(s);
    match Find(s, k)
    case Some(v) =>
      FindMember(s, k, v);
      FindMember(Reversed(s), k, v);
      assert (k, v) in multiset(s);
    case None =>
      forall v
        ensures Find(Reversed(s), k) != Some(v)
      {
        FindMember(s, k, v);
        FindMember(Reversed(s), k, v);
        assert (k, v) in Reversed(s) ==> (k, v) in multiset(Reversed(s));
      }
  }

  // ----- Positions in iteration order -----

  /** The buckets before b + 1 are those before b followed by bucket b. */
  lemma {:induction false} TotalLenStep<K, V>(t: Table<K, V>, b: nat)
    requires b < |t|
    ensures TotalLen(t[..b + 1]) == TotalLen(t[..b]) + |t[b]|
    ensures Flatten(t[..b + 1]) == Flatten(t[..b]) + t[b]
  {
    assert t[..b + 1][..b] == t[..b];
  }

  /** Empty buckets add nothing to the entries before them. */
  lemma {:induction false} SkipEmpty<K, V>(t: Table<K, V>, a: nat, b: nat)
    requires a <= b <= |t|
    requires forall j :: a <= j < b ==> t[j] == []
    ensures TotalLen(t[..b]) == TotalLen(t[..a])
    decreases b
  {
    if a < b {
      SkipEmpty(t, a, b - 1);
      TotalLenStep(t, b - 1);
    }
  }

  /** The entries of the first n buckets come first in iteration order. */
  lemma {:induction false} FlattenPrefix<K, V>(t: Table<K, V>, n: nat)
    requires n <= |t|
    ensures Flatten(t[..n]) <= Flatten(t)
    ensures TotalLen(t[..n]) <= TotalLen(t)
    decreases |t|
  {
    if n < |t| {
      var m := |t| - 1;
      assert t[..m][..n] == t[..n];
      FlattenPrefix(t[..m], n);
    } else {
      assert t[..n] == t;
    }
  }

  /** Entry p of bucket b is entry TotalLen(t[..b]) + p of the iteration. */
  lemma {:induction false} FlattenAt<K, V>(t: Table<K, V>, b: nat, p: nat)
    requires b < |t| && p < |t[b]|
    ensures |Flatten(t)| == TotalLen(t)
    ensures TotalLen(t[..b]) + p < TotalLen(t)
    ensures Flatten(t)[TotalLen(t[..b]) + p] == t[b][p]
  {
    TotalLenStep(t, b);
    FlattenPrefix(t, b + 1);
    FlattenLen(t[..b]);
    FlattenLen(t[..b + 1]);
    FlattenLen(t);
  }

  /** Cursors (b1, p1) before (b2, p2) in bucket order sit at earlier positions of the iteration. */
  lemma {:induction false} PositionOrder<K, V>(t: Table<K, V>, b1: nat, p1: nat, b2: nat)
    requires b1 < b2 <= |t| && p1 < |t[b1]|
    ensures TotalLen(t[..b1]) + p1 < TotalLen(t[..b2])
  {
    TotalLenStep(t, b1);
    FlattenPrefix(t[..b2], b1 + 1);
    assert t[..b2][..b1 + 1] == t[..b1 + 1];
  }

  /** A table holds no entries exactly when every bucket is empty. */
  lemma {:induction false} EmptyIffZero<K, V>(t: Table<K, V>, from: nat)
    requires from <= |t|
    ensures TotalLen(t[..from]) == TotalLen(t) <==> forall j :: from <= j < |t| ==> t[j] == []
  {
    if forall j :: from <= j < |t| ==> t[j] == [] {
      SkipEmpty(t, from, |t|);
      assert t[..|t|] == t;
    } else {
      var j :| from <= j < |t| && t[j] != [];
      PositionOrder(t, j, 0, |t|);
      assert t[..|t|] == t;
      if from < j {
        FlattenPrefix(t[..j], from);
        assert t[..j][..from] == t[..from];
      }
    }
  }

  // ----- Overwriting a value through a reference -----

  /** Overwriting the value of entry p keeps keys unique and changes only that key's lookup. */
  lemma {:induction false} FindSet<K, V>(s: seq<Entry<K, V>>, p: nat, v: V, k: K)
    requires UniqueKeys(s) && p < |s|
    ensures UniqueKeys(s[p := (s[p].0, v)])
    ensures Find(s[p := (s[p].0, v)], k) == if k == s[p].0 then Some(v) else Find(s, k)
  {
    var u := s[p := (s[p].0, v)];
    assert forall j :: 0 <= j < |s| ==> u[j].0 == s[j].0;
    if p > 0 {
      assert UniqueKeys(s[1..]);
      FindSet(s[1..], p - 1, v, k);
      assert u[1..] == s[1..][p - 1 := (s[p].0, v)];
      if s[0].0 == k {
        assert s[0].0 != s[p].0;
      }
    }
  }

  /** The table-level effect of overwriting the value of entry p of bucket b. */
  lemma {:induction false} SetValue<K, V>(t: Table<K, V>, hash: K -> nat, b: nat, p: nat, v: V)
    requires WellFormed(t, hash) && b < |t| && p < |t[b]|
    ensures var u := t[b := t[b][p := (t[b][p].0, v)]];
      && WellFormed(u, hash)
      && TotalLen(u) == TotalLen(t)
      && forall k :: Lookup(u, hash, k) == if k == t[b][p].0 then Some(v) else Lookup(t, hash, k)
  {
    var s := t[b][p := (t[b][p].0, v)];
    var u := t[b := s];
    FindSet(t[b], p, v, t[b][p].0);
    forall j, x: Entry<K, V> | 0 <= j < |u| && x in u[j]
      ensures BucketOf(hash(x.0), |u|) == j
    {
      if j == b {
        var q :| 0 <= q < |s| && s[q] == x;
        assert t[b][q] in t[b];
      }
    }
    forall k
      ensures Lookup(u, hash, k) == if k == t[b][p].0 then Some(v) else Lookup(t, hash, k)
    {
      FindSet(t[b], p, v, k);
    }
    TotalLenUpdate(t, b, s);
  }

  // ----- Bucket-wise inclusion (the equality test) -----

  /** Every entry of bucket i of a is also in bucket i of b. */
  ghost predicate Included<K, V>(a: Table<K, V>, b: Table<K, V>)
  {
    |a| == |b| && forall i, e :: 0 <= i < |a| && e in a[i] ==> e in b[i]
  }

  /** Removal keeps every entry other than the removed one. */
  lemma {:induction false} RemoveValueKeeps<K, V>(s: seq<Entry<K, V>>, e: Entry<K, V>, x: Entry<K, V>)
    requires x in s && x != e
    ensures x in RemoveValue(s, e)
  {
    if s[0] != x {
      RemoveValueKeeps(s[1..], e, x);
    }
  }

  /**
   * A bucket whose distinct entries all occur in a bucket b is no longer than b, and strictly
   * shorter when b also holds y, which a lacks.
   */
  lemma {:induction false} SubLen<K, V>(a: seq<Entry<K, V>>, b: seq<Entry<K, V>>, y: Option<Entry<K, V>>)
    requires UniqueKeys(a) && UniqueKeys(b)
    requires forall x :: x in a ==> x in b
    requires y.Some? ==> y.value in b && y.value !in a
    ensures |a| <= |b|
    ensures y.Some? ==> |a| < |b|
  {
    if |a| > 0 {
      var rest := RemoveValue(b, a[0]);
      RemoveOneCount(b, a[0]);
      RemoveUnique(b, a[0]);
      assert a == [a[0]] + a[1..];
      UniqueSplit([a[0]], a[1..]);
      forall x | x in a[1..]
        ensures x in rest
      {
        RemoveValueKeeps(b, a[0], x);
      }
      if y.Some? {
        RemoveValueKeeps(b, a[0], y.value);
      }
      SubLen(a[1..], rest, y);
      assert |multiset(rest) + multiset{a[0]}| == |multiset(b)|;
    }
  }

  /** Bucket-wise shorter tables hold fewer entries. */
  lemma {:induction false} TotalLenLe<K, V>(t1: Table<K, V>, t2: Table<K, V>, w: nat)
    requires |t1| == |t2| && forall j :: 0 <= j < |t1| ==> |t1[j]| <= |t2[j]|
    ensures TotalLen(t1) <= TotalLen(t2)
    ensures w < |t1| && |t1[w]| < |t2[w]| ==> TotalLen(t1) < TotalLen(t2)
  {
    if |t1| > 0 {
      var n := |t1| - 1;
      TotalLenLe(t1[..n], t2[..n], w);
    }
  }

  /** Under inclusion, a key that t2 has and t1 lacks would make t1 hold fewer entries. */
  lemma {:induction false} IncludedMissing<K, V>(t1: Table<K, V>, t2: Table<K, V>, hash: K -> nat, i: nat, e: Entry<K, V>)
    requires WellFormed(t1, hash) && WellFormed(t2, hash) && Included(t1, t2)
    requires i < |t1| && e in t2[i] && e !in t1[i]
    ensures TotalLen(t1) < TotalLen(t2)
  {
    forall j | 0 <= j < |t1|
      ensures |t1[j]| <= |t2[j]|
    {
      SubLen(t1[j], t2[j], None);
    }
    SubLen(t1[i], t2[i], Some(e));
    TotalLenLe(t1, t2, i);
  }

  /** Inclusion between well-formed tables of equal size means equal lookups. */
  lemma {:induction false} IncludedSameLookup<K, V>(t1: Table<K, V>, t2: Table<K, V>, hash: K -> nat, k: K)
    requires WellFormed(t1, hash) && WellFormed(t2, hash) && Included(t1, t2)
    requires TotalLen(t1) == TotalLen(t2)
    ensures Lookup(t1, hash, k) == Lookup(t2, hash, k)
  {
    var i := BucketOf(hash(k), |t1|);
    match Lookup(t1, hash, k)
    case Some(v) =>
      FindMember(t1[i], k, v);
      FindMember(t2[i], k, v);
    case None =>
      if Lookup(t2, hash, k).Some? {
        var w := Lookup(t2, hash, k).value;
        FindMember(t1[i], k, w);
        FindMember(t2[i], k, w);
        IncludedMissing(t1, t2, hash, i, (k, w));
      }
  }

  /** Equal lookups mean bucket-wise inclusion. */
  lemma {:induction false} SameLookupIncluded<K, V>(t1: Table<K, V>, t2: Table<K, V>, hash: K -> nat)
    requires WellFormed(t1, hash) && WellFormed(t2, hash) && |t1| == |t2|
    requires forall k :: Lookup(t1, hash, k) == Lookup(t2, hash, k)
    ensures Included(t1, t2)
  {
    forall i, e | 0 <= i < |t1| && e in t1[i]
      ensures e in t2[i]
    {
      assert BucketOf(hash(e.0), |t1|) == i;
      FindMember(t1[i], e.0, e.1);
      FindMember(t2[i], e.0, e.1);
      assert Lookup(t1, hash, e.0) == Lookup(t2, hash, e.0);
    }
  }

  /**
   * For two well-formed tables of one capacity and one size, bucket-wise inclusion holds exactly
   * when they answer every lookup alike: the order of entries within a bucket does not matter.
   */
  lemma {:induction false} IncludedIffSameLookup<K, V>(t1: Table<K, V>, t2: Table<K, V>, hash: K -> nat)
    requires WellFormed(t1, hash) && WellFormed(t2, hash) && |t1| == |t2|
    requires TotalLen(t1) == TotalLen(t2)
    ensures Included(t1, t2) <==> forall k :: Lookup(t1, hash, k) == Lookup(t2, hash, k)
  {
    if Included(t1, t2) {
      forall k
        ensures Lookup(t1, hash, k) == Lookup(t2, hash, k)
      {
        IncludedSameLookup(t1, t2, hash, k);
      }
    }
    if forall k :: Lookup(t1, hash, k) == Lookup(t2, hash, k) {
      SameLookupIncluded(t1, t2, hash);
    }
  }

  /** Well-formed tables of one capacity that answer every lookup alike hold equally many entries. */
  lemma {:induction false} SameLookupSameSize<K, V>(t1: Table<K, V>, t2: Table<K, V>, hash: K -> nat)
    requires WellFormed(t1, hash) && WellFormed(t2, hash) && |t1| == |t2|
    requires forall k :: Lookup(t1, hash, k) == Lookup(t2, hash, k)
    ensures TotalLen(t1) == TotalLen(t2)
  {
    SameLookupIncluded(t1, t2, hash);
    SameLookupIncluded(t2, t1, hash);
    forall j | 0 <= j < |t1|
      ensures |t1[j]| == |t2[j]|
    {
      SubLen(t1[j], t2[j], None);
      SubLen(t2[j], t1[j], None);
    }
    TotalLenLe(t1, t2, 0);
    TotalLenLe(t2, t1, 0);
  }
}
