/** The hash-sorted array map of arrays.c: entries in ascending order of their keys' hashes,
    keys with equal hashes side by side in a run that a lookup scans both ways. It refines
    a map from strings to values, for any hash function. */
module ArrayMap {
  import opened Options

  /** An array element: a null key, or a key and a value. */
  datatype Slot<+V> = Empty | Entry(key: string, value: V)

  /** The C operator ~ on an int. */
  function Complement(x: int): int { -x - 1 }

  ghost predicate Sorted<V>(s: seq<Slot<V>>, hash: string -> int) {
    && (forall i | 0 <= i < |s| :: s[i].Entry?)
    && (forall i, j | 0 <= i < j < |s| :: hash(s[i].key) <= hash(s[j].key))
  }

  ghost predicate Distinct<V>(s: seq<Slot<V>>)
    requires forall i | 0 <= i < |s| :: s[i].Entry?
  {
    forall i, j | 0 <= i < j < |s| :: s[i].key != s[j].key
  }

  predicate HasKey<V>(e: Slot<V>, key: string) { e.Entry? && e.key == key }

  ghost predicate Contains<V>(s: seq<Slot<V>>, key: string) {
    exists i :: 0 <= i < |s| && HasKey(s[i], key)
  }

  /** `s` lists the pairs of `m`, in ascending order of hash. */
  ghost predicate Lists<V>(s: seq<Slot<V>>, hash: string -> int, m: map<string, V>) {
    && Sorted(s, hash) && Distinct(s)
    && (forall i | 0 <= i < |s| :: s[i].key in m && m[s[i].key] == s[i].value)
    && (forall key | key in m :: Contains(s, key))
  }

  /** Where a key may be inserted so that the order of hashes is kept. */
  ghost predicate InsertionPoint<V>(s: seq<Slot<V>>, hash: string -> int, key: string, at: int)
    requires forall i | 0 <= i < |s| :: s[i].Entry?
  {
    && 0 <= at <= |s|
    && (forall i | 0 <= i < at :: hash(s[i].key) <= hash(key))
    && (forall i | at <= i < |s| :: hash(key) < hash(s[i].key))
  }

  /** `s` is `small` with one more entry at `at`. */
  ghost predicate Extends<V>(s: seq<Slot<V>>, small: seq<Slot<V>>, at: int) {
    && 0 <= at <= |small| && |s| == |small| + 1 && s[at].Entry?
    && (forall i | 0 <= i < at :: s[i] == small[i])
    && (forall i | at < i < |s| :: s[i] == small[i - 1])
  }

  lemma InsertSorted<V>(s: seq<Slot<V>>, small: seq<Slot<V>>, hash: string -> int, at: int)
    requires Extends(s, small, at) && Sorted(small, hash) && InsertionPoint(small, hash, s[at].key, at)
    ensures Sorted(s, hash)
  {}

  lemma InsertDistinct<V>(s: seq<Slot<V>>, small: seq<Slot<V>>, hash: string -> int, m: map<string, V>, at: int)
    requires Extends(s, small, at) && Lists(small, hash, m) && Sorted(s, hash) && s[at].key !in m
    ensures Distinct(s)
  {}

  lemma InsertContains<V>(s: seq<Slot<V>>, small: seq<Slot<V>>, hash: string -> int, m: map<string, V>, at: int,
      key: string)
    requires Extends(s, small, at) && Lists(small, hash, m) && (key in m || key == s[at].key)
    ensures Contains(s, key)
  {
    if key == s[at].key {
      assert HasKey(s[at], key);
    } else {
      var i :| 0 <= i < |small| && HasKey(small[i], key);
      assert HasKey(s[if i < at then i else i + 1], key);
    }
  }

  lemma InsertKeeps<V>(s: seq<Slot<V>>, small: seq<Slot<V>>, hash: string -> int, m: map<string, V>, at: int)
    requires Extends(s, small, at) && Lists(small, hash, m)
    requires s[at].key !in m && InsertionPoint(small, hash, s[at].key, at)
    ensures Lists(s, hash, m[s[at].key := s[at].value])
  {
    InsertSorted(s, small, hash, at);
    InsertDistinct(s, small, hash, m, at);
    forall k | k in m[s[at].key := s[at].value]
      ensures Contains(s, k)
    {
      InsertContains(s, small, hash, m, at, k);
    }
  }

  lemma ReplaceKeeps<V>(s: seq<Slot<V>>, hash: string -> int, m: map<string, V>, key: string, value: V, at: nat)
    requires Lists(s, hash, m) && at < |s| && HasKey(s[at], key)
    ensures Lists(s[at := Entry(key, value)], hash, m[key := value])
  {
    var s' := s[at := Entry(key, value)];
    forall k | k in m[key := value]
      ensures Contains(s', k)
    {
      if k == key {
        assert HasKey(s'[at], k);
      } else {
        var i :| 0 <= i < |s| && HasKey(s[i], k);
        assert HasKey(s'[i], k);
      }
    }
  }

  lemma RemoveSorted<V>(s: seq<Slot<V>>, small: seq<Slot<V>>, hash: string -> int, m: map<string, V>, at: nat)
    requires Lists(s, hash, m) && at < |s| && Extends(s, small, at)
    ensures Sorted(small, hash) && Distinct(small)
    ensures forall i | 0 <= i < |small| :: small[i].key != s[at].key
  {
    assert forall i | 0 <= i < |small| :: small[i] == s[if i < at then i else i + 1];
  }

  lemma RemoveKeeps<V>(s: seq<Slot<V>>, small: seq<Slot<V>>, hash: string -> int, m: map<string, V>, at: nat)
    requires Lists(s, hash, m) && at < |s| && Extends(s, small, at)
    ensures Lists(small, hash, m - {s[at].key})
  {
    RemoveSorted(s, small, hash, m, at);
    forall i | 0 <= i < |small|
      ensures small[i].key in m && m[small[i].key] == small[i].value
    {
      assert small[i] == s[if i < at then i else i + 1];
    }
    forall k | k in m && k != s[at].key
      ensures Contains(small, k)
    {
    }
  }

  class ArrayMap<V> {
    const hash: string -> int
    var size: nat
    var entries: array<Slot<V>>
    ghost var contents: map<string, V>

    ghost predicate Valid()
      reads this, entries
    {
      && size <= entries.Length
      && Lists(entries[..size], hash, contents)
      && (forall i | size <= i < entries.Length :: entries[i] == Empty)
    }

    constructor (hash: string -> int)
      ensures Valid() && contents == map[] && this.hash == hash && fresh(entries)
    {
      this.hash := hash;
      size := 0;
      entries := new Slot<V>[0];
      contents := map[];
    }

    /** An entry with the wanted hash, or the complement of the place where one belongs. */
    method BinarySearch(key: string) returns (r: int)
      requires Valid()
      ensures r >= 0 ==> r < size && hash(entries[r].key) == hash(key)
      ensures r < 0 ==> InsertionPoint(entries[..size], hash, key, Complement(r))
      ensures r < 0 ==> forall i | 0 <= i < size :: hash(entries[i].key) != hash(key)
    {
      var lo, hi := 0, size as int - 1;
      var h := hash(key);
      ghost var s := entries[..size];
      while lo <= hi
        invariant 0 <= lo <= hi + 1 <= size
        invariant forall i | 0 <= i < lo :: hash(s[i].key) < h
        invariant forall i | hi < i < size :: hash(s[i].key) > h
        decreases hi - lo
      {
        var mid := (lo + hi) / 2;
        assert entries[mid] == s[mid];
        var midHash := if entries[mid].Entry? then hash(entries[mid].key) else 0;
        if midHash < h {
          lo := mid + 1;
        } else if midHash > h {
          hi := mid - 1;
        } else {
          return mid;
        }
      }
      return Complement(lo);
    }

    /** The index of a key, or the complement of the place where it belongs. */
    method IndexOfKey(key: string) returns (r: int)
      requires Valid()
      ensures r >= 0 <==> key in contents
      ensures r >= 0 ==> r < size && HasKey(entries[r], key)
      ensures r < 0 ==> InsertionPoint(entries[..size], hash, key, Complement(r))
    {
      ghost var s := entries[..size];
      if size == 0 { return -1; }
      var index := BinarySearch(key);
      if index < 0 {
        return index;
      }
      assert entries[index] == s[index];
      if entries[index].key == key {
        assert HasKey(s[index], key);
        return index;
      }
      r := ScanRun(key, index);
    }

    /** The two scans of indexOfKey through the run of equal hashes around `index`. */
    method ScanRun(key: string, index: nat) returns (r: int)
      requires Valid() && index < size && hash(entries[index].key) == hash(key) && !HasKey(entries[index], key)
      ensures r >= 0 <==> Contains(entries[..size], key)
      ensures r >= 0 ==> r < size && HasKey(entries[r], key)
      ensures r < 0 ==> InsertionPoint(entries[..size], hash, key, Complement(r))
    {
      ghost var s := entries[..size];
      assert entries[index] == s[index];
      var h := hash(key);
      var end := index + 1;
      while end < size && hash(entries[end].key) == h
        invariant index < end <= size
        invariant forall i | index <= i < end :: hash(s[i].key) == h && !HasKey(s[i], key)
      {
        assert entries[end] == s[end];
        if entries[end].key == key {
          assert HasKey(s[end], key);
          return end;
        }
        end := end + 1;
      }
      var i := index - 1;
      while i >= 0 && hash(entries[i].key) == h
        invariant -1 <= i < index
        invariant forall k | i < k <= index :: hash(s[k].key) == h && !HasKey(s[k], key)
      {
        assert entries[i] == s[i];
        if entries[i].key == key {
          assert HasKey(s[i], key);
          return i;
        }
        i := i - 1;
      }
      RunIsScanned(s, hash, key, i, index, end);
      return Complement(end);
    }

    method Put(key: string, value: V)
      requires Valid()
      modifies this, entries
      ensures Valid() && contents == old(contents)[key := value]
      ensures entries == old(entries) || fresh(entries)
    {
      var index := IndexOfKey(key);
      if index >= 0 {
        ReplaceKeeps(entries[..size], hash, contents, key, value, index);
        entries[index] := entries[index].(value := value);
        assert entries[..size] == old(entries[..size])[index := Entry(key, value)];
        contents := contents[key := value];
        return;
      }
      ghost var small := entries[..size];
      EnsureCapacity(size + 1);
      InsertAt(Complement(index), Entry(key, value));
      InsertKeeps(entries[..size], small, hash, contents, Complement(index));
      contents := contents[key := value];
    }

    /** ENSURE_ARRAY_CAPACITY: half as much again, at least four and at least the target. */
    method EnsureCapacity(target: nat)
      requires size <= entries.Length && forall i | size <= i < entries.Length :: entries[i] == Empty
      modifies this`entries
      ensures entries.Length >= target && entries.Length >= size && entries[..size] == old(entries[..size])
      ensures forall i | size <= i < entries.Length :: entries[i] == Empty
      ensures if target <= old(entries.Length) then entries == old(entries) else fresh(entries)
      ensures target > old(entries.Length) ==>
                && entries.Length >= 4 && 2 * entries.Length >= 3 * old(entries.Length) - 1
                && (entries.Length == target || entries.Length == 4 || 2 * entries.Length <= 3 * old(entries.Length))
    {
      var capacity := entries.Length;
      if target > capacity {
        var newCapacity := if capacity < 4 then 4 else capacity + capacity / 2;
        if newCapacity < target { newCapacity := target; }
        var grown := new Slot<V>[newCapacity](_ => Empty);
        forall i | 0 <= i < capacity { grown[i] := entries[i]; }
        entries := grown;
      }
    }

    /** The memmove up and the store. */
    method InsertAt(at: int, e: Slot<V>)
      requires 0 <= at <= size < entries.Length && e.Entry?
      requires forall i | size <= i < entries.Length :: entries[i] == Empty
      modifies this`size, entries
      ensures size == old(size) + 1
      ensures Extends(entries[..size], old(entries[..size]), at) && entries[at] == e
      ensures forall i | size <= i < entries.Length :: entries[i] == Empty
    {
      forall i | at <= i < size { entries[i + 1] := entries[i]; }
      entries[at] := e;
      size := size + 1;
    }

    method Get(key: string) returns (r: Option<V>)
      requires Valid()
      ensures r == if key in contents then Some(contents[key]) else None
    {
      var index := IndexOfKey(key);
      if index >= 0 {
        assert entries[index] == entries[..size][index];
        return Some(entries[index].value);
      }
      return None;
    }

    method RemoveAt(index: nat) returns (r: Option<V>)
      requires Valid()
      modifies this, entries
      ensures Valid() && entries == old(entries)
      ensures index >= old(size) ==> r == None && contents == old(contents)
      ensures index < old(size) ==>
                r == Some(old(entries[index].value)) && contents == old(contents) - {old(entries[index].key)}
    {
      if index >= size { return None; }
      ghost var s := entries[..size];
      assert entries[index] == s[index];
      r := Some(entries[index].value);
      ghost var key := entries[index].key;
      CloseGap(index);
      RemoveKeeps(s, entries[..size], hash, contents, index);
      contents := contents - {key};
    }

    /** The memmove down and the two nulls. */
    method CloseGap(index: nat)
      requires index < size <= entries.Length && entries[index].Entry?
      requires forall i | size <= i < entries.Length :: entries[i] == Empty
      modifies this`size, entries
      ensures size == old(size) - 1
      ensures Extends(old(entries[..size]), entries[..size], index)
      ensures forall i | size <= i < entries.Length :: entries[i] == Empty
    {
      forall i | index < i < size { entries[i - 1] := entries[i]; }
      size := size - 1;
      entries[size] := Empty;
    }

    method Remove(key: string) returns (r: Option<V>)
      requires Valid()
      modifies this, entries
      ensures Valid() && entries == old(entries) && contents == old(contents) - {key}
      ensures r == if key in old(contents) then Some(old(contents)[key]) else None
    {
      var index := IndexOfKey(key);
      if index >= 0 {
        assert entries[index] == entries[..size][index];
        r := RemoveAt(index);
      } else {
        r := None;
      }
    }
  }

  /** A run of equal hashes that has been scanned to both ends without meeting the key: the
      key is nowhere, and the end of the run is where it belongs. */
  lemma RunIsScanned<V>(s: seq<Slot<V>>, hash: string -> int, key: string, i: int, index: int, end: int)
    requires Sorted(s, hash) && -1 <= i < index < end <= |s|
    requires forall k | i < k < end :: hash(s[k].key) == hash(key) && !HasKey(s[k], key)
    requires i >= 0 ==> hash(s[i].key) != hash(key)
    requires end < |s| ==> hash(s[end].key) != hash(key)
    ensures !Contains(s, key) && InsertionPoint(s, hash, key, end)
  {
    forall k | 0 <= k <= i
      ensures hash(s[k].key) < hash(key)
    {
      assert hash(s[k].key) <= hash(s[i].key) <= hash(s[index].key);
    }
    forall k | end <= k < |s|
      ensures hash(key) < hash(s[k].key)
    {
      assert hash(s[index].key) <= hash(s[end].key) <= hash(s[k].key);
    }
  }
}
