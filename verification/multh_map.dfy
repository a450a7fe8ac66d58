/** The Bucket of lib/multh_map.hpp: an unordered array of (key, data) pairs
    of which the first `size` are in use, with a `capacity` that grows by two
    whenever an addition fills the array. A data pointer is modelled as a
    value of type P, and the null pointer `del` and `get` return for a missing
    key as None. */
module MulthMap {

  datatype Option<T> = None | Some(value: T)

  datatype Entry<K, P> = Entry(key: K, data: P)

  predicate HasKey<K(==), P>(s: seq<Entry<K, P>>, key: K) {
    exists i :: 0 <= i < |s| && s[i].key == key
  }

  predicate KeysDistinct<K(==), P>(s: seq<Entry<K, P>>) {
    forall i, j :: 0 <= i < j < |s| ==> s[i].key != s[j].key
  }

  /** The linear scan from position i: the first position at or after i whose
      key matches, or None when none does. */
  function FindFrom<K(==), P>(s: seq<Entry<K, P>>, key: K, i: nat): (r: Option<nat>)
    requires i <= |s|
    decreases |s| - i
    ensures r.Some? ==>
      && i <= r.value < |s| && s[r.value].key == key
      && forall j :: i <= j < r.value ==> s[j].key != key
    ensures r.None? ==> forall j :: i <= j < |s| ==> s[j].key != key
  {
    if i == |s| then None
    else if s[i].key == key then Some(i)
    else FindFrom(s, key, i + 1)
  }

  /** The data paired with the key in the entries in use, or None. */
  function Lookup<K(==), P>(s: seq<Entry<K, P>>, key: K): (r: Option<P>)
    ensures r.Some? <==> HasKey(s, key)
    ensures r.Some? ==> Entry(key, r.value) in s
  {
    match FindFrom(s, key, 0)
    case None => None
    case Some(i) => Some(s[i].data)
  }

  /** With distinct keys, the entry holding the key decides the lookup. */
  lemma LookupAt<K, P>(s: seq<Entry<K, P>>, i: nat)
    requires KeysDistinct(s) && i < |s|
    ensures Lookup(s, s[i].key) == Some(s[i].data)
  {
    var f := FindFrom(s, s[i].key, 0);
    assert f.Some?;
    assert f.value == i;
  }

  /** Appending an entry with a new key keeps the keys distinct, makes the key
      map to the new data and leaves every other key's lookup alone. */
  lemma LookupAppend<K, P>(s: seq<Entry<K, P>>, key: K, p: P, k: K)
    requires KeysDistinct(s) && !HasKey(s, key)
    ensures KeysDistinct(s + [Entry(key, p)])
    ensures Lookup(s + [Entry(key, p)], k) == if k == key then Some(p) else Lookup(s, k)
  {
    var t := s + [Entry(key, p)];
    assert forall i :: 0 <= i < |s| ==> t[i] == s[i];
    if k == key {
      LookupAt(t, |s|);
    } else if HasKey(s, k) {
      var i :| 0 <= i < |s| && s[i].key == k;
      LookupAt(s, i);
      LookupAt(t, i);
    } else {
      assert !HasKey(t, k);
    }
  }

  /** The swap-with-last removal of position i: the last entry moves into
      position i, the sequence loses its last position, and every other
      position keeps its entry. */
  function SwapRemoveAt<K, P>(s: seq<Entry<K, P>>, i: nat): (r: seq<Entry<K, P>>)
    requires i < |s|
    ensures |r| == |s| - 1
    ensures forall j :: 0 <= j < |r| && j != i ==> r[j] == s[j]
    ensures i < |r| ==> r[i] == s[|s| - 1]
  {
    s[i := s[|s| - 1]][..|s| - 1]
  }

  /** Swap-removing the entry that holds a key keeps the keys distinct, makes
      the key absent, and leaves every other key's lookup alone. */
  lemma LookupSwapRemove<K, P>(s: seq<Entry<K, P>>, i: nat, k: K)
    requires KeysDistinct(s) && i < |s|
    ensures KeysDistinct(SwapRemoveAt(s, i))
    ensures Lookup(SwapRemoveAt(s, i), k) == if k == s[i].key then None else Lookup(s, k)
  {
    var r := SwapRemoveAt(s, i);
    var n := |s| - 1;
    forall a, b | 0 <= a < b < |r|
      ensures r[a].key != r[b].key
    {
      var a' := if a == i then n else a;
      var b' := if b == i then n else b;
      assert r[a] == s[a'] && r[b] == s[b'];
    }
    if k == s[i].key {
      forall j | 0 <= j < |r|
        ensures r[j].key != k
      {
        var j' := if j == i then n else j;
        assert r[j] == s[j'];
      }
    } else if HasKey(s, k) {
      var j :| 0 <= j < |s| && s[j].key == k;
      LookupAt(s, j);
      var j' := if j == n then i else j;
      assert r[j'] == s[j];
      LookupAt(r, j');
    } else {
      forall j | 0 <= j < |r|
        ensures r[j].key != k
      {
        var j' := if j == i then n else j;
        assert r[j] == s[j'];
      }
    }
  }

  // ---------------------------------------------------------------------------
  // Capacity

  /** The capacity after an addition that brings the size to newSize, with the
      grow test as written: grow by two only when the size hits the capacity
      exactly. The write position newSize - 1 is inside the array exactly when
      the bucket had a free position before the addition. */
  function NextCapacityAsWritten(newSize: nat, cap: nat): (r: nat)
    ensures r == cap || r == cap + 2
    ensures newSize <= cap ==> newSize < r
    ensures newSize - 1 < r ==> newSize <= cap
  {
    if newSize == cap then cap + 2 else cap
  }

  /** The capacity after an addition, with the grow test as meant: grow by two
      whenever the new size leaves no spare position. It always leaves room for
      the written position and a spare one, and it agrees with the test as
      written whenever the bucket had a spare position before the addition. */
  function NextCapacity(newSize: nat, cap: nat): (r: nat)
    ensures r == cap || r == cap + 2
    ensures newSize <= cap + 1 ==> newSize < r
    ensures newSize <= cap ==> r == NextCapacityAsWritten(newSize, cap)
  {
    if newSize >= cap then cap + 2 else cap
  }

  /** A default-constructed bucket has capacity 0: the first addition brings
      the size to 1, the test as written does not grow, and the entry is then
      written at index 0 of an array of length 0. The test as meant grows to 2. */
  lemma DefaultBucketFirstAdd()
    ensures NextCapacityAsWritten(1, 0) == 0
    ensures !(1 - 1 < NextCapacityAsWritten(1, 0))
    ensures NextCapacity(1, 0) == 2
  {
  }

  /** Capacity after n additions of new keys to an empty bucket of capacity
      cap, with the grow test as written. */
  function CapacityAfterAsWritten(cap: nat, n: nat): nat {
    if n == 0 then cap else NextCapacityAsWritten(n, CapacityAfterAsWritten(cap, n - 1))
  }

  /** Capacity after n additions of new keys to an empty bucket of capacity
      cap, with the grow test as meant. */
  function CapacityAfter(cap: nat, n: nat): nat {
    if n == 0 then cap else NextCapacity(n, CapacityAfter(cap, n - 1))
  }

  /** From capacity 0 the test as written never grows, so no addition ever has
      room. */
  lemma {:induction false} CapacityAfterAsWrittenFromZero(n: nat)
    ensures CapacityAfterAsWritten(0, n) == 0
  {
    if n > 0 {
      CapacityAfterAsWrittenFromZero(n - 1);
    }
  }

  /** From any capacity of at least 1, the two tests agree after every
      addition. */
  lemma {:induction false} CapacityAfterAgrees(cap: nat, n: nat)
    requires cap >= 1
    ensures CapacityAfter(cap, n) == CapacityAfterAsWritten(cap, n)
  {
    if n > 0 {
      CapacityAfterAgrees(cap, n - 1);
      CapacityAfterRoom(cap, n - 1);
    }
  }

  /** With the test as meant, every addition leaves a spare position past the
      entries in use, whatever the initial capacity. */
  lemma {:induction false} CapacityAfterRoom(cap: nat, n: nat)
    ensures n < CapacityAfter(cap, n) || n == cap == 0
  {
    if n > 0 {
      CapacityAfterRoom(cap, n - 1);
    }
  }

  // ---------------------------------------------------------------------------
  // The scans of `del` and `get` as written

  /** The scan as written: it compares the key at position i before testing
      whether i is the end, so it also reads the spare position `size` past
      the entries in use and reports it when its stale key matches. */
  function ScanAsWritten<K(==), P>(entries: seq<Entry<K, P>>, size: nat, key: K, i: nat): (r: Option<nat>)
    requires i <= size < |entries|
    decreases size - i
    ensures r.Some? ==> i <= r.value <= size && entries[r.value].key == key
    ensures r.None? ==> forall j :: i <= j <= size ==> entries[j].key != key
  {
    if entries[i].key == key then Some(i)
    else if i == size then None
    else ScanAsWritten(entries, size, key, i + 1)
  }

  /** The scan as written finds what the bounded scan finds, except that when
      the key is not in use it still reports the spare position if that
      position holds the key. */
  lemma {:induction false} ScanAsWrittenFinds<K, P>(entries: seq<Entry<K, P>>, size: nat, key: K, i: nat)
    requires i <= size < |entries|
    decreases size - i
    ensures ScanAsWritten(entries, size, key, i) ==
      match FindFrom(entries[..size], key, i)
      case Some(j) => Some(j)
      case None => if entries[size].key == key then Some(size) else None
  {
    if i < size {
      assert entries[..size][i] == entries[i];
      ScanAsWrittenFinds(entries, size, key, i + 1);
    }
  }

  /** `del` as written: the scan as written, then the last entry in use
      copied over the found position and the size dropped by one. Gives the
      new array, the new size and the returned data. On an empty bucket whose
      position 0 holds the key the code forms a pointer before the array, so
      that case is excluded. */
  function DelAsWritten<K(==), P>(entries: seq<Entry<K, P>>, size: nat, key: K): (r: (seq<Entry<K, P>>, nat, Option<P>))
    requires size < |entries|
    requires size > 0 || entries[0].key != key
    ensures r.2.None? ==> r == (entries, size, None) && forall j :: 0 <= j <= size ==> entries[j].key != key
    ensures r.2.Some? ==>
      && r.1 == size - 1
      && exists i :: 0 <= i <= size && entries[i].key == key && r.2.value == entries[i].data
                     && r.0 == entries[i := entries[size - 1]]
  {
    match ScanAsWritten(entries, size, key, 0)
    case None => (entries, size, None)
    case Some(i) =>
      var moved := if i != size - 1 then entries[i := entries[size - 1]] else entries;
      (moved, size - 1, Some(entries[i].data))
  }

  /** On an empty bucket the scan as written meets the end at position 0 and
      `del` returns null without changing anything. */
  lemma EmptyBucketDelAsWritten()
    ensures DelAsWritten([Entry(0, 0)], 0, 5) == ([Entry(0, 0)], 0, None)
    ensures ScanAsWritten([Entry(0, 0)], 0, 5, 0) == None
  {
  }

  /** After Bucket(1), add(1, 100), add(2, 200) and del(2), the array holds
      (1, 100), (2, 200), (0, 0) with size 1. Key 2 is not in the bucket, yet
      the scan as written finds it at the spare position: `get(2)` returns the
      stale 200, and a second `del(2)` returns 200, copies entry (1, 100) over
      the spare position and drops the size to 0, so key 1 is lost. */
  lemma StaleKeyFound()
    ensures var entries := [Entry(1, 100), Entry(2, 200), Entry(0, 0)];
      && Lookup(entries[..1], 2) == None
      && Lookup(entries[..1], 1) == Some(100)
      && ScanAsWritten(entries, 1, 2, 0) == Some(1)
      && DelAsWritten(entries, 1, 2) == ([Entry(1, 100), Entry(1, 100), Entry(0, 0)], 0, Some(200))
  {
    var entries := [Entry(1, 100), Entry(2, 200), Entry(0, 0)];
    assert entries[..1] == [Entry(1, 100)];
    assert !HasKey(entries[..1], 2);
    LookupAt(entries[..1], 0);
    assert ScanAsWritten(entries, 1, 2, 1) == Some(1);
    assert entries[1 := entries[0]] == [Entry(1, 100), Entry(1, 100), Entry(0, 0)];
  }

  // ---------------------------------------------------------------------------
  // The bucket

  class Bucket<K(==, 0), P(0)> {
    var size: nat
    var capacity: nat
    var data: array<Entry<K, P>>

    /** The array has `capacity` positions; the entries in use have distinct
        keys and leave a spare position, except in an empty bucket of
        capacity 0. */
    ghost predicate Valid()
      reads this, data
    {
      && data.Length == capacity
      && (size < capacity || size == capacity == 0)
      && KeysDistinct(data[..size])
    }

    /** The entries in use. */
    function Contents(): seq<Entry<K, P>>
      reads this, data
      requires size <= data.Length
    {
      data[..size]
    }

    /** A bucket without storage: capacity 0, no entries. */
    constructor ()
      ensures Valid() && fresh(data)
      ensures capacity == 0 && Contents() == []
    {
      data := new Entry<K, P>[0];
      capacity := 0;
      size := 0;
    }

    /** A bucket with storage for cap entries and none in use. */
    constructor WithCapacity(cap: nat)
      ensures Valid() && fresh(data)
      ensures capacity == cap && Contents() == []
    {
      data := new Entry<K, P>[cap];
      capacity := cap;
      size := 0;
    }

    /** `add`: refuses a key already in use and then changes nothing;
        otherwise appends the pair at index size - 1 of the grown size, growing
        the capacity by two when no spare position would be left. Every
        addition leaves a spare position. */
    method Add(key: K, p: P) returns (ok: bool)
      requires Valid()
      modifies this, data
      ensures Valid()
      ensures ok <==> !HasKey(old(Contents()), key)
      ensures ok ==> Contents() == old(Contents()) + [Entry(key, p)]
      ensures ok ==> capacity == NextCapacity(old(size) + 1, old(capacity))
      ensures ok ==> size == old(size) + 1 && size < capacity
      ensures !ok ==> size == old(size) && capacity == old(capacity)
      ensures !ok ==> data == old(data) && data[..] == old(data[..])
      ensures data == old(data) || fresh(data)
    {
      var i := 0;
      while i < size
        invariant i <= size
        invariant forall j :: 0 <= j < i ==> data[j].key != key
      {
        if data[i].key == key {
          assert Contents()[i].key == key;
          return false;
        }
        i := i + 1;
      }
      assert !HasKey(Contents(), key);
      size := size + 1;
      if size >= capacity {
        capacity := capacity + 2;
        var oldData := data;
        data := new Entry<K, P>[capacity];
        forall j | 0 <= j < oldData.Length {
          data[j] := oldData[j];
        }
      }
      data[size - 1] := Entry(key, p);
      assert Contents() == old(Contents()) + [Entry(key, p)];
      LookupAppend(old(Contents()), key, p, key);
      return true;
    }

    /** `del`: the scan stops at the end of the entries in use; a missing key
        gives None and changes nothing; otherwise the last entry moves into the
        found position, the size drops by one, and the key's data is returned. */
    method Del(key: K) returns (r: Option<P>)
      requires Valid()
      modifies this`size, data
      ensures Valid() && capacity == old(capacity) && data == old(data)
      ensures r == Lookup(old(Contents()), key)
      ensures match FindFrom(old(Contents()), key, 0)
        case None => size == old(size) && data[..] == old(data[..])
        case Some(i) => Contents() == SwapRemoveAt(old(Contents()), i)
      ensures !HasKey(Contents(), key)
    {
      var i := 0;
      while i < size && data[i].key != key
        invariant i <= size
        invariant FindFrom(Contents(), key, i) == FindFrom(Contents(), key, 0)
      {
        i := i + 1;
      }
      if i == size {
        return None;
      }
      var res := data[i].data;
      ghost var before := Contents();
      if i != size - 1 {
        data[i] := data[size - 1];
      }
      size := size - 1;
      assert Contents() == SwapRemoveAt(before, i);
      LookupSwapRemove(before, i, key);
      return Some(res);
    }

    /** `get`: the data paired with the key, or None; nothing changes. */
    method Get(key: K) returns (r: Option<P>)
      requires Valid()
      ensures r == Lookup(Contents(), key)
    {
      var i := 0;
      while i < size && data[i].key != key
        invariant i <= size
        invariant FindFrom(Contents(), key, i) == FindFrom(Contents(), key, 0)
      {
        i := i + 1;
      }
      if i == size {
        return None;
      }
      return Some(data[i].data);
    }
  }
}
