/**
 The hash map: an array of buckets that is rebuilt, recursively, when it fills up. A destructor is
 installed; the entries handed to it are the result `released` of each method.
 */
module HashMap {
  import opened Bytes

  datatype Entry<V> = Entry(key: string, value: V)

  /** stringHashFunc: unsigned 32-bit arithmetic over the bytes of the string. */
  function Hash(s: string): (h: nat)
    ensures h < 0x1_0000_0000
  {
    if s == "" then 0 else (31 * Hash(s[..|s| - 1]) + s[|s| - 1] as int) % 0x1_0000_0000
  }

  method StringHash(s: string) returns (h: nat)
    ensures h == Hash(s)
  {
    h := 0;
    for i := 0 to |s|
      invariant h == Hash(s[..i])
    {
      assert s[..i + 1][..i] == s[..i];
      h := (31 * h + s[i] as int) % 0x1_0000_0000;
    }
    assert s[..|s|] == s;
  }

  function BucketOf(key: string, size: nat): (i: nat)
    requires 0 < size
    ensures i < size
  {
    Hash(key) % size
  }

  /** The capacity the map allows itself. */
  function Limit(size: nat): nat
  {
    size * 8 / 10
  }

  function GrownSize(size: nat): nat
  {
    if size == 0 then 32 else if size < 1024 then 2 * size else size + 1024
  }

  predicate HasKey<V>(bucket: seq<Entry<V>>, key: string)
  {
    exists j :: 0 <= j < |bucket| && bucket[j].key == key
  }

  /** How the three numbers are related. `numEntries` may be larger than the number of keys, because
      rebuilding the table counts every key twice; the table still never holds more keys than 80% of
      its buckets. */
  predicate Sizes(size: nat, numEntries: nat, keys: nat)
  {
    (size == 0 || 32 <= size) && keys <= numEntries && keys <= Limit(size)
  }

  class HashMap<V> {
    var entries: array<seq<Entry<V>>>   // the bucket lists; mapSize is the length of the array
    var numEntries: nat

    ghost var M: map<string, V>         // what the table stands for

    ghost predicate Valid()
      reads this, entries
    {
      Sizes(entries.Length, numEntries, |M|) && Represents(entries[..], M)
    }

    /** initHashMap. */
    constructor ()
      ensures Valid() && fresh(entries) && M == map[]
    {
      entries, numEntries, M := new seq<Entry<V>>[0], 0, map[];
    }

    /** The empty table that replaces one that is too small; its count of entries is not reset. */
    constructor Sized(size: nat, numEntries: nat)
      requires 32 <= size
      ensures Valid() && fresh(entries) && M == map[] && entries.Length == size && this.numEntries == numEntries
    {
      entries := new seq<Entry<V>>[size](_ => []);
      this.numEntries, M := numEntries, map[];
    }

    /** The position of a key in a bucket, or the length of the bucket. */
    method IndexIn(b: nat, key: string) returns (i: nat)
      requires b < entries.Length
      ensures i <= |entries[b]| && (i < |entries[b]| ==> entries[b][i].key == key)
      ensures forall j :: 0 <= j < i ==> entries[b][j].key != key
    {
      i := 0;
      while i < |entries[b]|
        invariant i <= |entries[b]| && forall j :: 0 <= j < i ==> entries[b][j].key != key
      {
        if entries[b][i].key == key {
          return;
        }
        i := i + 1;
      }
    }

    /** getFromHashMap. */
    method Get(key: string) returns (value: Option<V>)
      requires Valid()
      ensures value == if key in M then Some(M[key]) else None
    {
      if entries.Length == 0 {
        return None;
      }
      var h := StringHash(key);
      var idx := h % entries.Length;
      var i := IndexIn(idx, key);
      if i < |entries[idx]| {
        assert Stored(entries[..][idx], idx, entries.Length, i, M);
        value := Some(entries[idx][i].value);
      } else {
        assert !HasKey(entries[..][idx], key);
        value := None;
      }
    }

    /** Stores an entry in a table that is large enough. */
    method Put(key: string, value: V) returns (released: seq<Entry<V>>)
      requires Valid() && |M| < Limit(entries.Length)
      modifies this, entries
      ensures Valid() && entries == old(entries)
      ensures M == old(M)[key := value]
      ensures released == if key in old(M) then [Entry(key, old(M)[key])] else []
    {
      var h := StringHash(key);
      var idx := h % entries.Length;
      var i := IndexIn(idx, key);
      ghost var table, m := entries[..], M;
      if i < |entries[idx]| {
        assert Stored(table[idx], idx, entries.Length, i, M);
        released := [entries[idx][i]];
        entries[idx] := entries[idx][i := Entry(key, value)];
        assert m[key := value].Keys == m.Keys;
      } else {
        assert !HasKey(table[idx], key);
        released := [];
        entries[idx] := entries[idx] + [Entry(key, value)];
        numEntries := numEntries + 1;
        assert m[key := value].Keys == m.Keys + {key};
      }
      M := M[key := value];
      TableUpdated(table, m, entries[..], M, idx, i, Entry(key, value));
    }

    /** Adds the entries of one bucket to the new table. No entry is ever replaced: the destructor, which
        the new table does not have yet, is never called. */
    method MoveBucket(newMap: HashMap<V>, i: nat) returns (released: seq<Entry<V>>)
      requires Valid() && newMap.Valid() && newMap != this && newMap.entries != entries && i < entries.Length
      requires MovedSoFar(entries[..], M, newMap.M, i, 0)
      modifies newMap, newMap.entries
      ensures newMap.Valid() && (newMap.entries == old(newMap.entries) || fresh(newMap.entries))
      ensures old(newMap.entries.Length) <= newMap.entries.Length
      ensures MovedSoFar(entries[..], M, newMap.M, i + 1, 0) && released == []
      decreases |M|, 0
    {
      hide Represents, Sizes;
      released := [];
      ghost var table := entries[..];
      for j := 0 to |entries[i]|
        invariant newMap.Valid() && (newMap.entries == old(newMap.entries) || fresh(newMap.entries))
        invariant newMap.entries != entries && entries[..] == table && M == old(M)
        invariant old(newMap.entries.Length) <= newMap.entries.Length
        invariant MovedSoFar(table, M, newMap.M, i, j) && released == []
      {
        NotMovedYet(table, M, newMap.M, i, j);
        var gone := newMap.Add(entries[i][j].key, entries[i][j].value);
        released := released + gone;
      }
      BucketMoved(table, M, newMap.M, i);
    }

    /** Adds all the entries to the new table. */
    method MoveAll(newMap: HashMap<V>) returns (released: seq<Entry<V>>)
      requires Valid() && newMap.Valid() && newMap != this && newMap.entries != entries && 0 < entries.Length
      requires newMap.M == map[]
      modifies newMap, newMap.entries
      ensures newMap.Valid() && (newMap.entries == old(newMap.entries) || fresh(newMap.entries))
      ensures old(newMap.entries.Length) <= newMap.entries.Length && newMap.M == M && released == []
      decreases |M|, 1
    {
      hide Represents, Sizes, MovedSoFar;
      released := [];
      ghost var table := entries[..];
      NothingMoved(table, M);
      for i := 0 to entries.Length
        invariant newMap.Valid() && (newMap.entries == old(newMap.entries) || fresh(newMap.entries))
        invariant newMap.entries != entries && entries[..] == table && M == old(M)
        invariant old(newMap.entries.Length) <= newMap.entries.Length
        invariant MovedSoFar(table, M, newMap.M, i, 0) && released == []
      {
        var gone := MoveBucket(newMap, i);
        released := released + gone;
      }
      AllMoved(table, M, newMap.M);
    }

    /** Rebuilds the table in a larger array. Every entry is added to the new table, which may have to be
        rebuilt in turn; it holds fewer keys at that point, so this ends. No entry is ever replaced. */
    method Grow() returns (released: seq<Entry<V>>)
      requires Valid()
      modifies this
      ensures Valid() && fresh(entries) && M == old(M) && |M| < Limit(entries.Length)
      ensures old(entries.Length) < entries.Length && released == []
      decreases |M|, 2
    {
      hide Represents;
      released := [];
      var newMap := new HashMap.Sized(GrownSize(entries.Length), numEntries);
      if entries.Length == 0 {
        assert M.Keys == {};
      } else {
        released := MoveAll(newMap);
      }
      entries, numEntries := newMap.entries, newMap.numEntries;
      M := newMap.M;
    }

    /** addToHashMap. */
    method Add(key: string, value: V) returns (released: seq<Entry<V>>)
      requires Valid()
      modifies this, entries
      ensures Valid() && (entries == old(entries) || fresh(entries)) && old(entries.Length) <= entries.Length
      ensures M == old(M)[key := value]
      ensures released == if key in old(M) then [Entry(key, old(M)[key])] else []
      decreases |M|, 3
    {
      released := [];
      if Limit(entries.Length) < numEntries + 1 {
        released := Grow();
      }
      var gone := Put(key, value);
      released := released + gone;
    }

    /** deleteFromHashMap: the last entry of the bucket takes the place of the one that is deleted. */
    method Delete(key: string) returns (released: seq<Entry<V>>)
      requires Valid()
      modifies this, entries
      ensures Valid() && entries == old(entries)
      ensures M == old(M) - {key}
      ensures released == if key in old(M) then [Entry(key, old(M)[key])] else []
    {
      released := [];
      if entries.Length == 0 {
        assert M - {key} == M;
        return;
      }
      var h := StringHash(key);
      var idx := h % entries.Length;
      var i := IndexIn(idx, key);
      ghost var table, m := entries[..], M;
      if i < |entries[idx]| {
        assert Stored(table[idx], idx, entries.Length, i, M);
        var last := |entries[idx]| - 1;
        released := [entries[idx][i]];
        entries[idx] := entries[idx][i := entries[idx][last]][..last];
        assert numEntries > 0;
        numEntries := numEntries - 1;
        M := M - {key};
        assert M.Keys == m.Keys - {key};
        EntryRemoved(table, m, entries[..], M, idx, i);
      } else {
        assert !HasKey(table[idx], key);
        assert M - {key} == M;
      }
      // The loop of the original goes on behind the deleted entry; no other entry has this key.
    }

    /** iterateOverHashMap: calls `fnc` for every key exactly once. The callback may change the value; the
        entries it refuses are handed to the destructor and removed. The count of entries is not
        lowered. */
    method Iterate(fnc: (string, V) -> (bool, V)) returns (visited: seq<string>, released: seq<Entry<V>>)
      requires Valid()
      modifies this, entries
      ensures Valid() && entries == old(entries) && numEntries == old(numEntries)
      ensures M == FilteredMap(old(M), fnc)
      ensures EachOnce(old(M), fnc, visited, released)
    {
      visited, released := [], [];
      ghost var m, size := M, entries.Length;
      if entries.Length == 0 {
        NothingToIterate(m, fnc);
        return;
      }
      visited, released := IterateAll(fnc);
      IterationEnds(m, size, fnc, visited, released);
    }

    /** iterateOverHashMap with a callback that deletes a key itself, with deleteFromHashMap, and then has it removed.
        That goes well exactly if its entry is the last one of its bucket, or there is none. */
    method IterateOwn(key: string) returns (released: seq<Slot<V>>, broken: bool)
      requires Valid()
      modifies this, entries
      ensures broken <==>
                key in old(M) && !IsLast(old(entries[BucketOf(key, entries.Length)]), key)
      ensures !broken ==> Valid() && entries == old(entries) && M == old(M) - {key}
      ensures !broken ==> released == if key in old(M) then [Some(Entry(key, old(M)[key])), None] else []
      ensures broken ==>
                && |released| == 2 && released[0] == Some(Entry(key, old(M)[key]))
                && released[1].Some? && released[1].value.key in old(M) && released[1].value.key != key
    {
      hide Represents, HasKey, IsLast, Distinct, Sizes, BucketOf;
      released, broken := [], false;
      ghost var table, m := entries[..], M;
      NoBuckets(table, m);
      for i := 0 to entries.Length
        invariant entries == old(entries) && M == m && entries[..] == table && numEntries == old(numEntries)
        invariant released == [] && !broken && (key in m ==> i <= BucketOf(key, |table|))
      {
        StoredDistinct(table, m, i);
        InItsBucket(table, m, i, key);
        var slots;
        slots, released, broken := IterateDeleting(entries[i], key);
        assert table[i] == entries[i];
        if released != [] {
          OwnReleased(table, m, i, key, released, broken);
          if !broken {
            DropLast(i, key);
          }
          return;
        }
      }
      BehindAll(table, m, key);
      assert M - {key} == M;
    }

    /** The last entry of a bucket has been removed. */
    method DropLast(i: nat, key: string)
      requires Valid() && i < entries.Length && IsLast(entries[i], key)
      modifies this, entries
      ensures Valid() && entries == old(entries) && M == old(M) - {key}
    {
      ghost var table, m, last := entries[..], M, |entries[i]| - 1;
      assert Stored(table[i], i, |table|, last, m);
      entries[i] := entries[i][..|entries[i]| - 1];
      numEntries := numEntries - 1;
      M := M - {key};
      assert M.Keys == m.Keys - {key};
      assert table[i][last := table[i][last]][..last] == table[i][..last];
      EntryRemoved(table, m, entries[..], M, i, last);
    }

    method IterateAll(fnc: (string, V) -> (bool, V)) returns (visited: seq<string>, released: seq<Entry<V>>)
      requires Represents(entries[..], M) && 0 < entries.Length
      modifies this`M, entries
      ensures Represents(entries[..], M) && M == IteratedUpTo(old(M), entries.Length, entries.Length, fnc)
      ensures CalledFor(old(M), entries.Length, entries.Length, fnc, visited, released)
    {
      visited, released := [], [];
      ghost var m := M;
      IterationStarts(m, entries.Length, fnc);
      for i := 0 to entries.Length
        invariant Represents(entries[..], M) && M == IteratedUpTo(m, entries.Length, i, fnc)
        invariant CalledFor(m, entries.Length, i, fnc, visited, released)
      {
        var keys, gone := IterateOver(i, fnc, m, visited, released);
        visited, released := visited + keys, released + gone;
      }
    }

    method IterateOver(i: nat, fnc: (string, V) -> (bool, V), ghost m: map<string, V>, ghost visited: seq<string>,
                       ghost released: seq<Entry<V>>)
      returns (keys: seq<string>, gone: seq<Entry<V>>)
      requires i < entries.Length && Represents(entries[..], M) && M == IteratedUpTo(m, entries.Length, i, fnc)
      requires CalledFor(m, entries.Length, i, fnc, visited, released)
      modifies this`M, entries
      ensures Represents(entries[..], M) && M == IteratedUpTo(m, entries.Length, i + 1, fnc)
      ensures CalledFor(m, entries.Length, i + 1, fnc, visited + keys, released + gone)
    {
      ghost var table := entries[..];
      var bucket;
      ghost var seen;
      bucket, keys, gone, seen := IterateBucket(entries[i], fnc);
      BucketIterated(table, M, i, seen, fnc);
      IterateNext(m, entries.Length, i, fnc);
      CalledNext(table, m, i, seen, fnc, visited, released);
      entries[i] := bucket;
      assert entries[..] == table[i := bucket];
      M := IterateMap(M, entries.Length, i, fnc);
    }
  }

  // ---- A callback that deletes ----

  /** A place in a bucket list; NULL keys are None. */
  type Slot<V> = Option<Entry<V>>

  function Slots<V>(bucket: seq<Entry<V>>): (slots: seq<Slot<V>>)
    ensures |slots| == |bucket| && forall i :: 0 <= i < |bucket| ==> slots[i] == Some(bucket[i])
  {
    seq(|bucket|, i requires 0 <= i < |bucket| => Some(bucket[i]))
  }

  predicate Distinct<V>(bucket: seq<Entry<V>>)
  {
    forall i, j :: 0 <= i < j < |bucket| ==> bucket[i].key != bucket[j].key
  }

  predicate IsLast<V>(bucket: seq<Entry<V>>, key: string)
  {
    bucket != [] && bucket[|bucket| - 1].key == key
  }

  /** The loop over one bucket, with a callback that deletes one key from the map, when it comes to it, and then asks
      for it to be removed: the entry that the deletion has moved into its place is destroyed as well, and the
      next call gets an empty entry. The results are the calls of the destructor. */
  method IterateDeleting<V>(bucket: seq<Entry<V>>, key: string)
    returns (slots: seq<Slot<V>>, released: seq<Slot<V>>, broken: bool)
    requires Distinct(bucket)
    ensures broken <==> HasKey(bucket, key) && !IsLast(bucket, key)
    ensures !HasKey(bucket, key) ==> slots == Slots(bucket) && released == []
    ensures IsLast(bucket, key) ==>
              var n := |bucket| - 1; slots == Slots(bucket[..n]) + [None] && released == [Some(bucket[n]), None]
    ensures broken ==>
              && |released| == 2 && released[0].Some? && released[0].value in bucket && released[0].value.key == key
              && released[1] == Some(bucket[|bucket| - 1])
  {
    slots, released, broken := Slots(bucket), [], false;
    var count := |bucket|;
    var j: nat := 0;
    while j < count
      invariant j <= count && released == [] && slots == Slots(bucket) && count == |bucket|
      invariant forall i :: 0 <= i < j ==> bucket[i].key != key
    {
      if slots[j].value.key != key {
        j := j + 1;
      } else {
        assert HasKey(bucket, key);
        assert IsLast(bucket, key) <==> j == count - 1;
        // deleteFromHashMap
        released := [slots[j]];
        slots := slots[j := slots[count - 1]][count - 1 := None];
        // iterateOverHashMap
        released := released + [slots[j]];
        slots := slots[j := slots[count - 1]][count - 1 := None];
        count := count - 1;
        broken := j < count && slots[j] == None;
        if !broken {
          assert slots == Slots(bucket[..count]) + [None];
        }
        return;
      }
    }
  }

  /** Two sessions in one bucket: when the request of the first one is dropped, both are destroyed. */
  method BothDestroyed<V>(k1: string, v1: V, k2: string, v2: V) returns (released: seq<Slot<V>>, broken: bool)
    requires k1 != k2
    ensures broken && released == [Some(Entry(k1, v1)), Some(Entry(k2, v2))]
  {
    var bucket := [Entry(k1, v1), Entry(k2, v2)];
    assert HasKey(bucket, k1) by { assert bucket[0].key == k1; }
    var slots;
    slots, released, broken := IterateDeleting(bucket, k1);
  }

  lemma StoredDistinct<V>(table: seq<seq<Entry<V>>>, m: map<string, V>, b: nat)
    requires Represents(table, m) && b < |table|
    ensures Distinct(table[b])
  {
    forall i, j | 0 <= i < j < |table[b]|
      ensures table[b][i].key != table[b][j].key
    {
      assert Stored(table[b], b, |table|, i, m);
    }
  }

  lemma NoBuckets<V>(table: seq<seq<Entry<V>>>, m: map<string, V>)
    requires Represents(table, m)
    ensures |table| == 0 ==> m.Keys == {}
  {
  }

  /** A key is in one of the buckets. */
  lemma BehindAll<V>(table: seq<seq<Entry<V>>>, m: map<string, V>, key: string)
    requires Represents(table, m) && (key in m && table != [] ==> |table| <= BucketOf(key, |table|))
    ensures key !in m
  {
    hide Represents;
    NoBuckets(table, m);
    assert key in m ==> key in m.Keys;
  }

  lemma OwnReleased<V>(table: seq<seq<Entry<V>>>, m: map<string, V>, b: nat, key: string, released: seq<Slot<V>>,
                       broken: bool)
    requires Represents(table, m) && b < |table| && HasKey(table[b], key) && (broken <==> !IsLast(table[b], key))
    requires !broken ==> released == [Some(table[b][|table[b]| - 1]), None]
    requires broken ==>
               && |released| == 2 && released[0].Some? && released[0].value in table[b] && released[0].value.key == key
               && released[1] == Some(table[b][|table[b]| - 1])
    ensures key in m && BucketOf(key, |table|) == b && released[0] == Some(Entry(key, m[key]))
    ensures broken ==> released[1].Some? && released[1].value.key in m && released[1].value.key != key
  {
    InItsBucket(table, m, b, key);
    var last := |table[b]| - 1;
    assert Stored(table[b], b, |table|, last, m);
    if broken {
      var i :| 0 <= i < |table[b]| && table[b][i] == released[0].value;
      assert Stored(table[b], b, |table|, i, m);
    }
  }

  /** A key is in its bucket, or nowhere. */
  lemma InItsBucket<V>(table: seq<seq<Entry<V>>>, m: map<string, V>, b: nat, key: string)
    requires Represents(table, m) && b < |table|
    ensures HasKey(table[b], key) <==> key in m && BucketOf(key, |table|) == b
  {
    if HasKey(table[b], key) {
      var i :| 0 <= i < |table[b]| && table[b][i].key == key;
      assert Stored(table[b], b, |table|, i, m);
    }
  }

  // ---- Iteration ----

  /** The loop over one bucket: what has been seen, in order; what is left of the bucket; and where. */
  ghost predicate Iterating<V>(original: seq<Entry<V>>, bucket: seq<Entry<V>>, j: nat, seen: seq<Entry<V>>,
                               fnc: (string, V) -> (bool, V))
  {
    && j <= |bucket|
    && multiset(seen) + multiset(bucket[j..]) == multiset(original)
    && bucket[..j] == Kept(seen, fnc)
  }

  /** One entry of a bucket. `fnc` may change the value; if it says no, the entry is dropped and the last
      one takes its place, to be visited next. */
  method VisitEntry<V>(bucket: seq<Entry<V>>, j: nat, fnc: (string, V) -> (bool, V),
                       ghost original: seq<Entry<V>>, ghost seen: seq<Entry<V>>)
    returns (bucket': seq<Entry<V>>, j': nat, released: seq<Entry<V>>)
    requires Iterating(original, bucket, j, seen, fnc) && j < |bucket|
    ensures Iterating(original, bucket', j', seen + [bucket[j]], fnc) && |bucket'| - j' == |bucket| - j - 1
    ensures Dropped(seen + [bucket[j]], fnc) == Dropped(seen, fnc) + released
  {
    var e := bucket[j];
    var (keep, value) := fnc(e.key, e.value);
    var e' := Entry(e.key, value);
    SeenNext(seen, e, fnc);
    assert multiset(seen + [e]) == multiset(seen) + multiset([e]);
    if keep {
      bucket', j', released := bucket[j := e'], j + 1, [];
      KeepNext(bucket, bucket', j, e');
    } else {
      bucket', j', released := bucket[j := bucket[|bucket| - 1]][..|bucket| - 1], j, [e'];
      DropNext(bucket, bucket', j);
    }
  }

  /** One bucket of iterateOverHashMap. */
  method IterateBucket<V>(original: seq<Entry<V>>, fnc: (string, V) -> (bool, V))
    returns (bucket: seq<Entry<V>>, visited: seq<string>, released: seq<Entry<V>>, ghost seen: seq<Entry<V>>)
    ensures multiset(seen) == multiset(original) && multiset(visited) == multiset(Keys(original))
    ensures bucket == Kept(seen, fnc) && visited == Keys(seen) && released == Dropped(seen, fnc)
  {
    var j: nat := 0;
    bucket, visited, released, seen := original, [], [], [];
    assert bucket[0..] == bucket;
    while j < |bucket|
      invariant Iterating(original, bucket, j, seen, fnc)
      invariant visited == Keys(seen) && released == Dropped(seen, fnc)
      decreases |bucket| - j
    {
      ghost var e := bucket[j];
      visited := visited + [bucket[j].key];
      SeenNext(seen, e, fnc);
      var gone;
      bucket, j, gone := VisitEntry(bucket, j, fnc, original, seen);
      released := released + gone;
      seen := seen + [e];
    }
    assert bucket[j..] == [];
    assert bucket[..j] == bucket;
    KeysPermuted(seen, original);
  }

  /** What an iteration makes of entries visited in this order. */
  function Kept<V>(seen: seq<Entry<V>>, fnc: (string, V) -> (bool, V)): seq<Entry<V>>
  {
    if seen == [] then []
    else
      var e := seen[|seen| - 1];
      Kept(seen[..|seen| - 1], fnc) + (if fnc(e.key, e.value).0 then [Entry(e.key, fnc(e.key, e.value).1)] else [])
  }

  function Dropped<V>(seen: seq<Entry<V>>, fnc: (string, V) -> (bool, V)): seq<Entry<V>>
  {
    if seen == [] then []
    else
      var e := seen[|seen| - 1];
      Dropped(seen[..|seen| - 1], fnc) + (if fnc(e.key, e.value).0 then [] else [Entry(e.key, fnc(e.key, e.value).1)])
  }

  function Keys<V>(seen: seq<Entry<V>>): seq<string>
  {
    if seen == [] then [] else Keys(seen[..|seen| - 1]) + [seen[|seen| - 1].key]
  }

  function Apply<V>(e: Entry<V>, fnc: (string, V) -> (bool, V)): Entry<V>
  {
    Entry(e.key, fnc(e.key, e.value).1)
  }

  lemma {:induction false} KeyAt<V>(s: seq<Entry<V>>, i: nat)
    requires i < |s|
    ensures |Keys(s)| == |s| && Keys(s)[i] == s[i].key
  {
    var init := s[..|s| - 1];
    if i < |init| {
      KeyAt(init, i);
    } else if init != [] {
      KeyAt(init, 0);
    }
  }

  lemma {:induction false} KeysRemove<V>(s: seq<Entry<V>>, i: nat)
    requires i < |s|
    ensures multiset(Keys(s)) == multiset(Keys(s[..i] + s[i + 1..])) + multiset([s[i].key])
  {
    var init, last := s[..|s| - 1], s[|s| - 1];
    if i == |s| - 1 {
      assert s[..i] + s[i + 1..] == init;
    } else {
      var less := init[..i] + init[i + 1..];
      assert s[..i] + s[i + 1..] == less + [last] && s == init + [last];
      KeysRemove(init, i);
      KeysSnoc(init, last);
      KeysSnoc(less, last);
      BagExchange(multiset(Keys(less)), multiset{s[i].key}, multiset{last.key});
    }
  }

  lemma KeysSnoc<V>(s: seq<Entry<V>>, e: Entry<V>)
    ensures multiset(Keys(s + [e])) == multiset(Keys(s)) + multiset{e.key}
  {
    assert (s + [e])[..|s|] == s;
  }

  lemma BagWithout<T>(s: seq<T>, i: nat)
    requires i < |s|
    ensures multiset(s) == multiset(s[..i] + s[i + 1..]) + multiset{s[i]}
  {
    assert s == s[..i] + [s[i]] + s[i + 1..];
  }

  lemma WithoutOne<T>(a: seq<T>, i: nat, b: seq<T>, j: nat)
    requires multiset(a) == multiset(b) && i < |a| && j < |b| && a[i] == b[j]
    ensures multiset(a[..i] + a[i + 1..]) == multiset(b[..j] + b[j + 1..])
  {
    BagWithout(a, i);
    BagWithout(b, j);
    BagCancel(multiset(a[..i] + a[i + 1..]), multiset(b[..j] + b[j + 1..]), multiset{a[i]});
  }

  lemma BagCancel<T>(a: multiset<T>, b: multiset<T>, x: multiset<T>)
    requires a + x == b + x
    ensures a == b
  {
    assert a == (a + x) - x && b == (b + x) - x;
  }

  /** The same entries in another order have the same keys. */
  lemma {:induction false} KeysPermuted<V>(a: seq<Entry<V>>, b: seq<Entry<V>>)
    requires multiset(a) == multiset(b)
    ensures multiset(Keys(a)) == multiset(Keys(b))
  {
    if a == [] {
      assert |multiset(b)| == 0;
    } else {
      var init, last := a[..|a| - 1], a[|a| - 1];
      assert a == init + [last];
      assert last in multiset(b);
      var i :| 0 <= i < |b| && b[i] == last;
      WithoutOne(a, |a| - 1, b, i);
      assert a[..|a| - 1] + a[|a| - 1 + 1..] == init;
      KeysPermuted(init, b[..i] + b[i + 1..]);
      KeysRemove(a, |a| - 1);
      KeysRemove(b, i);
    }
  }

  lemma TwiceIn(s: seq<string>, i: nat, j: nat)
    requires i < j < |s| && s[i] == s[j]
    ensures multiset(s)[s[i]] >= 2
  {
    var a, b := s[..j], s[j..];
    assert s == a + b;
    assert a[i] == s[i] && b[0] == s[i];
    assert s[i] in multiset(a) && s[i] in multiset(b);
  }

  lemma OnceIn(s: seq<string>, i: nat)
    requires i < |s| && forall j :: 0 <= j < |s| && j != i ==> s[j] != s[i]
    ensures multiset(s)[s[i]] == 1
  {
    var a, b := s[..i], s[i + 1..];
    assert s == a + [s[i]] + b;
    assert s[i] !in multiset(a) && s[i] !in multiset(b);
  }

  lemma AllKeysAt<V>(s: seq<Entry<V>>)
    ensures |Keys(s)| == |s| && forall i :: 0 <= i < |s| ==> Keys(s)[i] == s[i].key
  {
    if s != [] {
      KeyAt(s, 0);
    }
    forall i | 0 <= i < |s|
      ensures Keys(s)[i] == s[i].key
    {
      KeyAt(s, i);
    }
  }

  /** A key that is counted once belongs to one entry. */
  lemma NotTwice<V>(s: seq<Entry<V>>, i: nat, j: nat)
    requires i < j < |s| && multiset(Keys(s))[s[i].key] <= 1
    ensures s[i].key != s[j].key
  {
    AllKeysAt(s);
    if s[i].key == s[j].key {
      TwiceIn(Keys(s), i, j);
    }
  }

  lemma NotIn(s: seq<string>, k: string)
    requires forall i :: 0 <= i < |s| ==> s[i] != k
    ensures multiset(s)[k] == 0
  {
    assert k !in s;
  }

  lemma CountedOnce<V>(s: seq<Entry<V>>, k: string)
    requires forall i, j :: 0 <= i < j < |s| ==> s[i].key != s[j].key
    ensures multiset(Keys(s))[k] == if HasKey(s, k) then 1 else 0
  {
    hide Keys;
    AllKeysAt(s);
    if HasKey(s, k) {
      var i :| 0 <= i < |s| && s[i].key == k;
      OnceIn(Keys(s), i);
    } else {
      NotIn(Keys(s), k);
    }
  }

  /** How often a key occurs. */
  function Count<V>(s: seq<Entry<V>>, k: string): nat
  {
    multiset(Keys(s))[k]
  }

  lemma CountAppend<V>(s: seq<Entry<V>>, e: Entry<V>, k: string)
    ensures Count(s + [e], k) == Count(s, k) + if e.key == k then 1 else 0
  {
    KeysAppend(s, e);
  }

  /** Every key that has been seen is either kept or dropped. */
  lemma {:induction false} KeptKeys<V>(seen: seq<Entry<V>>, fnc: (string, V) -> (bool, V), k: string)
    ensures Count(Kept(seen, fnc), k) + Count(Dropped(seen, fnc), k) == Count(seen, k)
  {
    if seen != [] {
      var init, e := seen[..|seen| - 1], seen[|seen| - 1];
      KeptKeys(init, fnc, k);
      assert seen == init + [e];
      CountAppend(init, e, k);
      CountNext(init, e, fnc, k);
    }
  }

  lemma CountNext<V>(init: seq<Entry<V>>, e: Entry<V>, fnc: (string, V) -> (bool, V), k: string)
    ensures Count(Kept(init + [e], fnc), k) + Count(Dropped(init + [e], fnc), k)
         == Count(Kept(init, fnc), k) + Count(Dropped(init, fnc), k) + if e.key == k then 1 else 0
  {
    SeenNext(init, e, fnc);
    if fnc(e.key, e.value).0 {
      CountAppend(Kept(init, fnc), Apply(e, fnc), k);
    } else {
      CountAppend(Dropped(init, fnc), Apply(e, fnc), k);
    }
  }

  /** Where the entries that are kept, and those that are dropped, come from. */
  lemma {:induction false} KeptFrom<V>(seen: seq<Entry<V>>, fnc: (string, V) -> (bool, V), e: Entry<V>, keep: bool)
    ensures e in (if keep then Kept(seen, fnc) else Dropped(seen, fnc))
       <==> exists e0 :: e0 in seen && fnc(e0.key, e0.value).0 == keep && e == Apply(e0, fnc)
  {
    if seen != [] {
      var init, last := seen[..|seen| - 1], seen[|seen| - 1];
      KeptFrom(init, fnc, e, keep);
      assert seen == init + [last];
    }
  }

  /** The map after the iteration has passed bucket b. */
  function IterateMap<V>(m: map<string, V>, size: nat, b: nat, fnc: (string, V) -> (bool, V)): map<string, V>
    requires 0 < size
  {
    map k | k in m && (BucketOf(k, size) != b || fnc(k, m[k]).0) ::
      if BucketOf(k, size) == b then fnc(k, m[k]).1 else m[k]
  }

  /** What was seen in a bucket are exactly its keys, each once. */
  lemma SeenOnce<V>(table: seq<seq<Entry<V>>>, m: map<string, V>, b: nat, seen: seq<Entry<V>>, k: string)
    requires Represents(table, m) && b < |table| && multiset(seen) == multiset(table[b])
    ensures multiset(Keys(seen))[k] == if k in m && BucketOf(k, |table|) == b then 1 else 0
  {
    KeysPermuted(seen, table[b]);
    forall i, j | 0 <= i < j < |table[b]|
      ensures table[b][i].key != table[b][j].key
    {
      assert Stored(table[b], b, |table|, i, m);
    }
    CountedOnce(table[b], k);
    if HasKey(table[b], k) {
      var i :| 0 <= i < |table[b]| && table[b][i].key == k;
      assert Stored(table[b], b, |table|, i, m);
    }
  }

  lemma SeenStored<V>(table: seq<seq<Entry<V>>>, m: map<string, V>, b: nat, seen: seq<Entry<V>>, e: Entry<V>)
    requires Represents(table, m) && b < |table| && multiset(seen) == multiset(table[b]) && e in seen
    ensures e.key in m && m[e.key] == e.value && BucketOf(e.key, |table|) == b
  {
    assert e in multiset(seen);
    var i :| 0 <= i < |table[b]| && table[b][i] == e;
    assert Stored(table[b], b, |table|, i, m);
  }

  /** The iteration over one bucket does to the table what it does to the map. */
  lemma BucketIterated<V>(table: seq<seq<Entry<V>>>, m: map<string, V>, b: nat, seen: seq<Entry<V>>,
                          fnc: (string, V) -> (bool, V))
    requires Represents(table, m) && b < |table| && multiset(seen) == multiset(table[b])
    ensures Represents(table[b := Kept(seen, fnc)], IterateMap(m, |table|, b, fnc))
  {
    var kept, m' := Kept(seen, fnc), IterateMap(m, |table|, b, fnc);
    var table' := table[b := kept];
    forall c, j | 0 <= c < |table'| && 0 <= j < |table'[c]|
      ensures Stored(table'[c], c, |table'|, j, m')
    {
      if c != b {
        assert Stored(table[c], c, |table|, j, m);
      } else {
        KeptStored(table, m, b, seen, fnc, j);
      }
    }
    forall k | k in m'
      ensures HasKey(table'[BucketOf(k, |table'|)], k)
    {
      assert HasKey(table[BucketOf(k, |table|)], k);
      if BucketOf(k, |table|) == b {
        KeptFound(table, m, b, seen, fnc, k);
      }
    }
  }

  lemma KeptStored<V>(table: seq<seq<Entry<V>>>, m: map<string, V>, b: nat, seen: seq<Entry<V>>,
                      fnc: (string, V) -> (bool, V), j: nat)
    requires Represents(table, m) && b < |table| && multiset(seen) == multiset(table[b]) && j < |Kept(seen, fnc)|
    ensures Stored(Kept(seen, fnc), b, |table|, j, IterateMap(m, |table|, b, fnc))
  {
    var kept := Kept(seen, fnc);
    var e := kept[j];
    assert e in kept;
    KeptFrom(seen, fnc, e, true);
    var e0 :| e0 in seen && fnc(e0.key, e0.value).0 && e == Apply(e0, fnc);
    SeenStored(table, m, b, seen, e0);
    forall k | 0 <= k < |kept| && k != j
      ensures kept[k].key != e.key
    {
      SeenOnce(table, m, b, seen, e.key);
      SeenOnce(table, m, b, seen, kept[k].key);
      KeptKeys(seen, fnc, e.key);
      KeptKeys(seen, fnc, kept[k].key);
      if j < k {
        NotTwice(kept, j, k);
      } else {
        NotTwice(kept, k, j);
      }
    }
  }

  lemma KeptFound<V>(table: seq<seq<Entry<V>>>, m: map<string, V>, b: nat, seen: seq<Entry<V>>,
                     fnc: (string, V) -> (bool, V), k: string)
    requires Represents(table, m) && b < |table| && multiset(seen) == multiset(table[b])
    requires k in m && BucketOf(k, |table|) == b && fnc(k, m[k]).0
    ensures HasKey(Kept(seen, fnc), k)
  {
    var i :| 0 <= i < |table[b]| && table[b][i].key == k;
    var e0 := table[b][i];
    assert Stored(table[b], b, |table|, i, m);
    assert e0 in multiset(table[b]);
    assert e0 in multiset(seen);
    KeptFrom(seen, fnc, Apply(e0, fnc), true);
    var j :| 0 <= j < |Kept(seen, fnc)| && Kept(seen, fnc)[j] == Apply(e0, fnc);
  }

  /** What is dropped from a bucket are exactly the keys that `fnc` refuses. */
  lemma DroppedOnce<V>(table: seq<seq<Entry<V>>>, m: map<string, V>, b: nat, seen: seq<Entry<V>>,
                       fnc: (string, V) -> (bool, V), k: string)
    requires Represents(table, m) && b < |table| && multiset(seen) == multiset(table[b])
    ensures multiset(Keys(Dropped(seen, fnc)))[k]
         == if k in m && BucketOf(k, |table|) == b && !fnc(k, m[k]).0 then 1 else 0
  {
    SeenOnce(table, m, b, seen, k);
    KeptKeys(seen, fnc, k);
    var table', m' := table[b := Kept(seen, fnc)], IterateMap(m, |table|, b, fnc);
    BucketIterated(table, m, b, seen, fnc);
    SeenOnce(table', m', b, Kept(seen, fnc), k);
  }

  /** What a filtering iteration makes of the map. */
  function FilteredMap<V>(m: map<string, V>, fnc: (string, V) -> (bool, V)): map<string, V>
  {
    map k | k in m && fnc(k, m[k]).0 :: fnc(k, m[k]).1
  }

  /** The map while the buckets before the i-th have been passed. */
  function IteratedUpTo<V>(m: map<string, V>, size: nat, i: nat, fnc: (string, V) -> (bool, V)): map<string, V>
    requires 0 < size
  {
    map k | k in m && (i <= BucketOf(k, size) || fnc(k, m[k]).0) ::
      if BucketOf(k, size) < i then fnc(k, m[k]).1 else m[k]
  }

  lemma IterateNext<V>(m: map<string, V>, size: nat, i: nat, fnc: (string, V) -> (bool, V))
    requires 0 < size
    ensures IterateMap(IteratedUpTo(m, size, i, fnc), size, i, fnc) == IteratedUpTo(m, size, i + 1, fnc)
    ensures forall k :: k in m && BucketOf(k, size) == i ==> k in IteratedUpTo(m, size, i, fnc)
  {
    var a, b := IterateMap(IteratedUpTo(m, size, i, fnc), size, i, fnc), IteratedUpTo(m, size, i + 1, fnc);
    assert forall k :: k in a <==> k in b;
    assert forall k :: k in a ==> a[k] == b[k];
  }

  /** Which keys have been visited, and which refused, while the i-th bucket is due. */
  ghost predicate CalledFor<V>(m: map<string, V>, size: nat, i: nat, fnc: (string, V) -> (bool, V),
                               visited: seq<string>, released: seq<Entry<V>>)
    requires 0 < size
  {
    && (forall k :: multiset(visited)[k] == if k in m && BucketOf(k, size) < i then 1 else 0)
    && (forall k :: multiset(Keys(released))[k]
                 == if k in m && BucketOf(k, size) < i && !fnc(k, m[k]).0 then 1 else 0)
    && (forall e :: e in released ==> e.key in m && e.value == fnc(e.key, m[e.key]).1)
  }

  lemma CalledNext<V>(table: seq<seq<Entry<V>>>, m: map<string, V>, i: nat, seen: seq<Entry<V>>,
                      fnc: (string, V) -> (bool, V), visited: seq<string>, released: seq<Entry<V>>)
    requires i < |table| && Represents(table, IteratedUpTo(m, |table|, i, fnc)) && multiset(seen) == multiset(table[i])
    requires CalledFor(m, |table|, i, fnc, visited, released)
    ensures CalledFor(m, |table|, i + 1, fnc, visited + Keys(seen), released + Dropped(seen, fnc))
  {
    var now := IteratedUpTo(m, |table|, i, fnc);
    IterateNext(m, |table|, i, fnc);
    KeysConcat(released, Dropped(seen, fnc));
    forall k
      ensures multiset(visited + Keys(seen))[k] == if k in m && BucketOf(k, |table|) < i + 1 then 1 else 0
      ensures multiset(Keys(released + Dropped(seen, fnc)))[k]
           == if k in m && BucketOf(k, |table|) < i + 1 && !fnc(k, m[k]).0 then 1 else 0
    {
      SeenOnce(table, now, i, seen, k);
      DroppedOnce(table, now, i, seen, fnc, k);
    }
    forall e | e in Dropped(seen, fnc)
      ensures e.key in m && e.value == fnc(e.key, m[e.key]).1
    {
      KeptFrom(seen, fnc, e, false);
      var e0 :| e0 in seen && !fnc(e0.key, e0.value).0 && e == Apply(e0, fnc);
      SeenStored(table, now, i, seen, e0);
    }
  }

  /** Every key has been visited exactly once, and those that `fnc` refuses have been released exactly once, with
      the value that `fnc` has left. */
  ghost predicate EachOnce<V>(m: map<string, V>, fnc: (string, V) -> (bool, V), visited: seq<string>,
                              released: seq<Entry<V>>)
  {
    && (forall k :: multiset(visited)[k] == if k in m then 1 else 0)
    && (forall k :: multiset(Keys(released))[k] == if k in m && !fnc(k, m[k]).0 then 1 else 0)
    && (forall e :: e in released ==> e.key in m && e.value == fnc(e.key, m[e.key]).1)
  }

  lemma NothingToIterate<V>(m: map<string, V>, fnc: (string, V) -> (bool, V))
    requires |m| == 0
    ensures m == FilteredMap(m, fnc) && EachOnce(m, fnc, [], [])
  {
    assert m.Keys == {};
    assert Keys<V>([]) == [];
  }

  lemma IterationStarts<V>(m: map<string, V>, size: nat, fnc: (string, V) -> (bool, V))
    requires 0 < size
    ensures IteratedUpTo(m, size, 0, fnc) == m && CalledFor(m, size, 0, fnc, [], [])
  {
    assert Keys<V>([]) == [];
  }

  lemma IterationEnds<V>(m: map<string, V>, size: nat, fnc: (string, V) -> (bool, V), visited: seq<string>,
                         released: seq<Entry<V>>)
    requires 0 < size && CalledFor(m, size, size, fnc, visited, released)
    ensures var now := IteratedUpTo(m, size, size, fnc);
            now == FilteredMap(m, fnc) && |now| <= |m|
    ensures EachOnce(m, fnc, visited, released)
  {
    SubsetSize(IteratedUpTo(m, size, size, fnc).Keys, m.Keys);
  }

  lemma KeysConcat<V>(a: seq<Entry<V>>, b: seq<Entry<V>>)
    ensures Keys(a + b) == Keys(a) + Keys(b)
  {
    if b == [] {
      assert a + b == a && Keys(a) + [] == Keys(a);
    } else {
      var init, last := b[..|b| - 1], b[|b| - 1];
      assert (a + b)[..|a + b| - 1] == a + init;
      KeysConcat(a, init);
    }
  }

  lemma KeysAppend<V>(s: seq<Entry<V>>, e: Entry<V>)
    ensures Keys(s + [e]) == Keys(s) + [e.key]
  {
    assert (s + [e])[..|s|] == s;
  }

  lemma SeenNext<V>(seen: seq<Entry<V>>, e: Entry<V>, fnc: (string, V) -> (bool, V))
    ensures var e' := Entry(e.key, fnc(e.key, e.value).1);
            && Kept(seen + [e], fnc) == (if fnc(e.key, e.value).0 then Kept(seen, fnc) + [e'] else Kept(seen, fnc))
            && Dropped(seen + [e], fnc)
            == (if fnc(e.key, e.value).0 then Dropped(seen, fnc) else Dropped(seen, fnc) + [e'])
            && Keys(seen + [e]) == Keys(seen) + [e.key]
  {
    assert (seen + [e])[..|seen|] == seen;
  }

  lemma DropNext<V>(bucket: seq<Entry<V>>, bucket': seq<Entry<V>>, j: nat)
    requires j < |bucket| && bucket' == bucket[j := bucket[|bucket| - 1]][..|bucket| - 1]
    ensures bucket'[..j] == bucket[..j]
    ensures multiset(bucket[j..]) == multiset(bucket'[j..]) + multiset([bucket[j]])
  {
    var last := |bucket| - 1;
    if j == last {
      assert bucket[j..] == [bucket[j]] && bucket'[j..] == [];
    } else {
      var middle := bucket[j + 1..last];
      assert bucket[j..] == [bucket[j]] + middle + [bucket[last]];
      assert bucket'[j..] == [bucket[last]] + middle;
    }
  }

  lemma KeepNext<V>(bucket: seq<Entry<V>>, bucket': seq<Entry<V>>, j: nat, e: Entry<V>)
    requires j < |bucket| && bucket' == bucket[j := e]
    ensures bucket'[..j + 1] == bucket[..j] + [e]
    ensures multiset(bucket[j..]) == multiset(bucket'[j + 1..]) + multiset([bucket[j]])
  {
    assert bucket'[j + 1..] == bucket[j + 1..];
    assert bucket[j..] == [bucket[j]] + bucket[j + 1..];
  }

  /** Removing an entry from its bucket. */
  lemma EntryRemoved<V>(table: seq<seq<Entry<V>>>, m: map<string, V>, table': seq<seq<Entry<V>>>, m': map<string, V>,
                        b: nat, i: nat)
    requires Represents(table, m) && b < |table| && i < |table[b]|
    requires table' == table[b := table[b][i := table[b][|table[b]| - 1]][..|table[b]| - 1]]
    requires m' == m - {table[b][i].key}
    ensures Represents(table', m')
  {
    var key, last := table[b][i].key, |table[b]| - 1;
    assert Stored(table[b], b, |table|, i, m);
    assert Stored(table[b], b, |table|, last, m);
    forall c, j | 0 <= c < |table'| && 0 <= j < |table'[c]|
      ensures Stored(table'[c], c, |table'|, j, m')
    {
      assert Stored(table[c], c, |table|, j, m);
    }
    forall k | k in m'
      ensures HasKey(table'[BucketOf(k, |table'|)], k)
    {
      var c := BucketOf(k, |table|);
      assert HasKey(table[c], k);
      var j :| 0 <= j < |table[c]| && table[c][j].key == k;
      var j' := if c == b && j == last then i else j;
      assert table'[c][j'].key == k;
    }
  }

  /** The keys that have been moved while the j-th entry of bucket i is due. */
  ghost predicate Moved<V>(table: seq<seq<Entry<V>>>, k: string, i: nat, j: nat)
    requires 0 < |table|
  {
    BucketOf(k, |table|) < i || (BucketOf(k, |table|) == i < |table| && j <= |table[i]| && HasKey(table[i][..j], k))
  }

  /** What the new table holds at that point: those keys, with their values. */
  ghost predicate MovedSoFar<V>(table: seq<seq<Entry<V>>>, m: map<string, V>, moved: map<string, V>, i: nat, j: nat)
    requires 0 < |table|
  {
    && (forall k :: k in moved <==> k in m && Moved(table, k, i, j))
    && (forall k :: k in moved ==> moved[k] == m[k])
  }

  lemma MovedNext<V>(table: seq<seq<Entry<V>>>, k: string, i: nat, j: nat)
    requires i < |table| && j < |table[i]| && BucketOf(table[i][j].key, |table|) == i
    ensures Moved(table, k, i, j + 1) <==> Moved(table, k, i, j) || k == table[i][j].key
  {
    var before, after := table[i][..j], table[i][..j + 1];
    assert after == before + [table[i][j]];
    if HasKey(before, k) {
      var t :| 0 <= t < j && before[t].key == k;
      assert after[t].key == k;
    }
    if HasKey(after, k) && k != table[i][j].key {
      var t :| 0 <= t < j + 1 && after[t].key == k;
      assert before[t].key == k;
    }
    if k == table[i][j].key {
      assert after[j].key == k;
    }
  }

  /** The entry that is due is new to the new table, which holds fewer keys than the old one. */
  lemma NotMovedYet<V>(table: seq<seq<Entry<V>>>, m: map<string, V>, moved: map<string, V>, i: nat, j: nat)
    requires Represents(table, m) && i < |table| && j < |table[i]| && MovedSoFar(table, m, moved, i, j)
    ensures var e := table[i][j];
            && e.key in m && m[e.key] == e.value && e.key !in moved && |moved| < |m|
            && MovedSoFar(table, m, moved[e.key := e.value], i, j + 1)
  {
    var e := table[i][j];
    assert Stored(table[i], i, |table|, j, m);
    assert moved.Keys <= m.Keys - {e.key};
    SubsetSize(moved.Keys, m.Keys - {e.key});
    assert |m.Keys - {e.key}| == |m.Keys| - 1;
    forall k
      ensures Moved(table, k, i, j + 1) <==> Moved(table, k, i, j) || k == e.key
    {
      MovedNext(table, k, i, j);
    }
  }

  lemma BucketMoved<V>(table: seq<seq<Entry<V>>>, m: map<string, V>, moved: map<string, V>, i: nat)
    requires Represents(table, m) && i < |table| && MovedSoFar(table, m, moved, i, |table[i]|)
    ensures MovedSoFar(table, m, moved, i + 1, 0)
  {
    assert table[i][..|table[i]|] == table[i];
    assert i + 1 < |table| ==> table[i + 1][..0] == [];
    forall k | k in m && BucketOf(k, |table|) == i
      ensures HasKey(table[i], k)
    {
    }
    forall k
      ensures k in m ==> (Moved(table, k, i + 1, 0) <==> Moved(table, k, i, |table[i]|))
    {
      if i + 1 < |table| {
        assert table[i + 1][..0] == [];
      }
    }
  }

  lemma NothingMoved<V>(table: seq<seq<Entry<V>>>, m: map<string, V>)
    requires 0 < |table|
    ensures MovedSoFar(table, m, map[], 0, 0)
  {
  }

  lemma AllMoved<V>(table: seq<seq<Entry<V>>>, m: map<string, V>, moved: map<string, V>)
    requires 0 < |table| && MovedSoFar(table, m, moved, |table|, 0)
    ensures moved == m
  {
    assert forall k :: k in m ==> Moved(table, k, |table|, 0);
  }

  lemma SubsetSize<T>(a: set<T>, b: set<T>)
    requires a <= b
    ensures |a| <= |b|
  {
    assert b == a + (b - a);
  }

  /** An entry is in its bucket, has the value the map gives it, and occurs once. */
  ghost predicate Stored<V>(bucket: seq<Entry<V>>, b: nat, size: nat, j: nat, m: map<string, V>)
    requires 0 < size && j < |bucket|
  {
    var e := bucket[j];
    && e.key in m && m[e.key] == e.value && BucketOf(e.key, size) == b
    && forall k :: 0 <= k < |bucket| && k != j ==> bucket[k].key != e.key
  }

  ghost predicate Represents<V>(table: seq<seq<Entry<V>>>, m: map<string, V>)
  {
    && (forall b, j :: 0 <= b < |table| && 0 <= j < |table[b]| ==> Stored(table[b], b, |table|, j, m))
    && (forall k :: k in m ==> 0 < |table| && HasKey(table[BucketOf(k, |table|)], k))
  }

  /** Storing an entry at its place in its bucket, or at the end of the bucket if it is new. */
  lemma TableUpdated<V>(table: seq<seq<Entry<V>>>, m: map<string, V>, table': seq<seq<Entry<V>>>, m': map<string, V>,
                        b: nat, i: nat, e: Entry<V>)
    requires Represents(table, m) && b < |table| == |table'| && b == BucketOf(e.key, |table|)
    requires i <= |table[b]| && forall j :: 0 <= j < |table[b]| ==> (table[b][j].key == e.key <==> j == i)
    requires table' == table[b := if i < |table[b]| then table[b][i := e] else table[b] + [e]]
    requires m' == m[e.key := e.value]
    ensures Represents(table', m')
  {
    forall c, j | 0 <= c < |table'| && 0 <= j < |table'[c]|
      ensures Stored(table'[c], c, |table'|, j, m')
    {
      if c != b {
        assert Stored(table[c], c, |table|, j, m);
      } else if j != i {
        assert Stored(table[c], c, |table|, j, m);
        assert table'[c][j] == table[c][j];
      } else {
        assert table'[c][j] == e;
      }
    }
    forall k | k in m'
      ensures HasKey(table'[BucketOf(k, |table'|)], k)
    {
      if k == e.key {
        assert table'[b][i].key == k;
      } else {
        assert HasKey(table[BucketOf(k, |table|)], k);
        var c := BucketOf(k, |table|);
        var j :| 0 <= j < |table[c]| && table[c][j].key == k;
        assert table'[c][j].key == k;
      }
    }
  }
}
