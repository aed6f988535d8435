/** The object pool behind a descriptor pool: a list of available objects, placeholders at
    first, and either a list of used ones or a position that only a reset takes back. */
module ObjectPool {

  class VkObject {
    var id: nat

    constructor (id: nat)
      ensures this.id == id
    {
      this.id := id;
    }
  }

  datatype Op = Get(id: nat) | Free(k: nat) | Reset

  class VkObjectPool {
    const canFreeObjects: bool
    const size: nat
    /** vkNullObject, which fills the list until objects are made. */
    const nullObject: VkObject
    var position: nat
    var availableObjects: seq<VkObject>
    var usedObjects: seq<VkObject>

    /** The objects that have been obtained and not freed, nor taken back by a reset. */
    ghost function InUse(): seq<VkObject>
      reads this
    {
      if canFreeObjects then usedObjects
      else if position <= |availableObjects| then availableObjects[..position] else []
    }

    /** Objects in use are distinct, no object is both used and available, only placeholders
        are available twice, and no slot of the pool is lost. */
    ghost predicate Valid()
      reads this, nullObject
    {
      && nullObject.id == 0
      && Distinct(InUse()) && nullObject !in InUse()
      && Once(availableObjects, nullObject)
      && (if canFreeObjects then
            && |availableObjects| + |usedObjects| == size
            && forall o | o in availableObjects :: o == nullObject || o !in usedObjects
          else
            usedObjects == [] && |availableObjects| == size && position <= size)
    }

    constructor (size: nat, canFreeObjects: bool, nullObject: VkObject)
      requires nullObject.id == 0
      ensures Valid() && InUse() == [] && Objects() <= {nullObject} && this.size == size
          && this.canFreeObjects == canFreeObjects && this.nullObject == nullObject
      ensures position == 0 && |availableObjects| == size
    {
      this.size, this.canFreeObjects, this.nullObject := size, canFreeObjects, nullObject;
      position := 0;
      availableObjects := seq(size, _ => nullObject);
      usedObjects := [];
    }

    /** Every object that the lists mention. */
    ghost function Objects(): set<VkObject>
      reads this
    {
      (set o | o in availableObjects) + (set o | o in usedObjects)
    }

    /** On a sound pool it fails exactly when all objects of the pool are in use, and otherwise
        hands out one that is not; on any pool it hands out the last available one. */
    method Get() returns (got: VkObject?)
      requires nullObject.id == 0 && (canFreeObjects || Valid())
      modifies this
      ensures old(Valid()) ==> Valid()
      ensures old(Valid()) ==> (got == null <==> |old(InUse())| == size)
      ensures got == null ==> unchanged(this)
      ensures got != null ==> InUse() == old(InUse()) + [got] && position == old(position) + 1
      ensures old(Valid()) && got != null ==> got !in old(InUse()) && got != nullObject
      ensures canFreeObjects && got != null ==>
                0 < |old(availableObjects)| && availableObjects == old(availableObjects)[..|old(availableObjects)| - 1]
                && (old(availableObjects)[|old(availableObjects)| - 1].id != 0 ==>
                      got == old(availableObjects)[|old(availableObjects)| - 1])
      ensures canFreeObjects && old(availableObjects) != [] ==> got != null
      ensures !canFreeObjects && got != null ==>
                old(position) < |old(availableObjects)|
                && availableObjects == old(availableObjects)[old(position) := got]
                && (old(availableObjects[position].id) != 0 ==> got == old(availableObjects)[old(position)])
      ensures fresh(Objects() - old(Objects())) && (got != null ==> got in Objects())
    {
      if canFreeObjects { got := GetLast(); } else { got := GetNext(); }
      if got != null { assert got in InUse(); }
    }

    /** Get when objects can be freed: the last available one. */
    method GetLast() returns (got: VkObject?)
      requires nullObject.id == 0 && canFreeObjects
      modifies this
      ensures old(Valid()) ==> Valid()
      ensures got == null <==> old(availableObjects) == []
      ensures got == null ==> unchanged(this)
      ensures got != null ==> usedObjects == old(usedObjects) + [got] && position == old(position) + 1
      ensures got != null ==> availableObjects == old(availableObjects)[..|old(availableObjects)| - 1]
      ensures got != null ==>
                var last := old(availableObjects)[|old(availableObjects)| - 1];
                if last.id != 0 then got == last else fresh(got)
      ensures old(Valid()) && got != null ==> got !in old(usedObjects) && got != nullObject
    {
      if |availableObjects| == 0 { return null; }
      var last := |availableObjects| - 1;
      got := availableObjects[last];
      assert got in availableObjects;
      availableObjects := availableObjects[..last];
      if got.id == 0 { got := new VkObject(0); }
      usedObjects := usedObjects + [got];
      position := position + 1;
    }

    /** Get when they cannot: the one at the position. */
    method GetNext() returns (got: VkObject?)
      requires Valid() && !canFreeObjects
      modifies this
      ensures Valid()
      ensures got == null <==> old(position) == size
      ensures got == null ==> unchanged(this)
      ensures got != null ==> InUse() == old(InUse()) + [got] && position == old(position) + 1
      ensures got != null ==> usedObjects == old(usedObjects) && (got in old(availableObjects) || fresh(got))
      ensures got != null ==> availableObjects == old(availableObjects)[old(position) := got]
      ensures got != null ==>
                if old(availableObjects[position].id) != 0 then got == old(availableObjects)[old(position)]
                else fresh(got)
      ensures got != null ==> got !in old(InUse()) && got != nullObject
    {
      if position == |availableObjects| { return null; }
      got := availableObjects[position];
      assert got in availableObjects;
      if got.id == 0 {
        got := new VkObject(0);
        availableObjects := availableObjects[position := got];
      }
      assert availableObjects[..position] == old(availableObjects)[..position];
      assert availableObjects[..position + 1] == availableObjects[..position] + [got];
      position := position + 1;
    }

    /** All objects are available again, those that were used last before the others. */
    method Reset()
      requires Valid()
      modifies this
      ensures Valid() && InUse() == [] && Objects() == old(Objects())
      ensures position == 0 && usedObjects == []
      ensures canFreeObjects ==> Returned(availableObjects, old(availableObjects), old(usedObjects), 0)
      ensures !canFreeObjects ==> availableObjects == old(availableObjects)
    {
      position := 0;
      if canFreeObjects {
        while |usedObjects| > 0
          invariant Valid() && Objects() == old(Objects()) && position == 0
          invariant usedObjects <= old(usedObjects)
          invariant Returned(availableObjects, old(availableObjects), old(usedObjects), |usedObjects|)
          decreases |usedObjects|
        {
          ReturnLast();
        }
      }
    }

    /** The body of the reset's loop. */
    method ReturnLast()
      requires Valid() && canFreeObjects && usedObjects != []
      modifies `usedObjects, `availableObjects
      ensures Valid() && Objects() == old(Objects())
      ensures var last := |old(usedObjects)| - 1;
        && usedObjects == old(usedObjects)[..last]
        && availableObjects == old(availableObjects) + [old(usedObjects)[last]]
    {
      var last := |usedObjects| - 1;
      var usedObject := usedObjects[last];
      assert usedObject in usedObjects;
      assert usedObjects == usedObjects[..last] + [usedObject];
      usedObjects := usedObjects[..last];
      availableObjects := availableObjects + [usedObject];
    }

    /** Freeing keeps the pool sound if and only if the object is in use, or nothing can be
        freed. */
    method FreeObject(usedObject: VkObject)
      requires Valid()
      modifies this
      ensures !canFreeObjects ==> unchanged(this)
      ensures Valid() <==> !canFreeObjects || usedObject in old(InUse())
      ensures canFreeObjects && usedObject in old(InUse()) ==> Without(InUse(), old(InUse()), usedObject)
      ensures canFreeObjects ==> availableObjects == old(availableObjects) + [usedObject]
      ensures usedObject !in old(usedObjects) ==> usedObjects == old(usedObjects)
      ensures Objects() <= old(Objects()) + {usedObject} && position == old(position)
    {
      if !canFreeObjects { return; }
      Remove(usedObject);
      availableObjects := availableObjects + [usedObject];
    }

    /** ArrayList_remove on the used objects. */
    method Remove(freed: VkObject)
      modifies `usedObjects
      ensures freed !in old(usedObjects) ==> usedObjects == old(usedObjects)
      ensures freed in old(usedObjects) ==> Without(usedObjects, old(usedObjects), freed)
    {
      var i := 0;
      while i < |usedObjects| && usedObjects[i] != freed
        invariant 0 <= i <= |usedObjects| && freed !in usedObjects[..i]
      {
        i := i + 1;
      }
      if i < |usedObjects| {
        assert usedObjects == usedObjects[..i] + [freed] + usedObjects[i + 1..];
        usedObjects := usedObjects[..i] + usedObjects[i + 1..];
      }
    }
  }

  /** Only `placeholder` is listed more than once. */
  ghost predicate Once(s: seq<VkObject>, placeholder: VkObject) {
    forall i, j | 0 <= i < j < |s| :: s[i] == s[j] ==> s[i] == placeholder
  }

  ghost predicate Distinct(s: seq<VkObject>) {
    forall i, j | 0 <= i < j < |s| :: s[i] != s[j]
  }

  /** `r` is `available` and then `used` from its end down to place `k`. */
  ghost predicate Returned(r: seq<VkObject>, available: seq<VkObject>, used: seq<VkObject>, k: nat) {
    && k <= |used| && |r| == |available| + |used| - k && available <= r
    && forall i | k <= i < |used| :: r[|available| + |used| - 1 - i] == used[i]
  }

  /** `r` is `s` without its first `object`. */
  ghost predicate Without(r: seq<VkObject>, s: seq<VkObject>, freed: VkObject) {
    exists i :: 0 <= i < |s| && s[i] == freed && r == s[..i] + s[i + 1..]
  }

  /** Two frees of one object let two gets hand it out twice. */
  method DoubleFree(pool: VkObjectPool, freed: VkObject) returns (a: VkObject?, b: VkObject?)
    requires pool.Valid() && pool.canFreeObjects && freed in pool.InUse() && freed.id != 0
    modifies pool
    ensures a == b == freed && !Distinct(pool.InUse())
  {
    pool.FreeObject(freed);
    pool.FreeObject(freed);
    a := pool.Get();
    b := pool.Get();
    assert pool.InUse()[|pool.InUse()| - 2] == pool.InUse()[|pool.InUse()| - 1];
  }

  /** Any run of gets, frees of objects in use and resets keeps the objects in use distinct,
      whatever ids the caller gives the objects it obtains. */
  method Run(size: nat, canFreeObjects: bool, ops: seq<Op>) returns (pool: VkObjectPool)
    ensures pool.Valid() && Distinct(pool.InUse()) && |pool.InUse()| <= size
  {
    var nullObject := new VkObject(0);
    pool := new VkObjectPool(size, canFreeObjects, nullObject);
    for i := 0 to |ops|
      invariant fresh(pool) && pool.Valid() && pool.size == size && pool.nullObject == nullObject
      invariant fresh(pool.Objects())
    {
      match ops[i] {
        case Get(id) =>
          var got := pool.Get();
          if got != null { got.id := id; }
        case Free(k) =>
          if k < |pool.usedObjects| { pool.FreeObject(pool.usedObjects[k]); }
        case Reset => pool.Reset();
      }
    }
  }
}
