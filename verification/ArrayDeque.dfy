/** The circular double-ended queue of arrays.c: head and tail indices into an array whose
    length is a power of two, null outside the window between them, doubled when the window
    fills it. It refines a sequence, up to the capacity at which doubling overflows. */
module ArrayDeque {
  import opened Bits
  import opened Options

  /** The capacity that cannot be doubled in an int. */
  const MAX_CAPACITY: nat := 0x4000_0000

  /** The value of `size << 1` in an int. */
  function DoubledInt(size: nat): int
    requires size <= MAX_CAPACITY
  {
    if 2 * size < 0x8000_0000 then 2 * size else 2 * size - WRAP
  }

  /** `slots` hold `s` from `head` up to `tail`, and nothing else. */
  ghost predicate Layout<T>(slots: seq<Option<T>>, head: nat, tail: nat, s: seq<T>) {
    var n := |slots|;
    && |s| < n && head < n && tail == At(n, head, |s|)
    && (forall k | 0 <= k < |s| :: slots[At(n, head, k)] == Some(s[k]))
    && (forall k | |s| <= k < n :: slots[At(n, head, k)] == None)
  }

  /** The slots determine the sequence, and head meets tail only when it is empty. */
  lemma LayoutDecides<T>(slots: seq<Option<T>>, head: nat, tail: nat, s: seq<T>, s': seq<T>)
    requires Layout(slots, head, tail, s) && Layout(slots, head, tail, s')
    ensures s == s' && (s == [] <==> head == tail)
    ensures forall k | 0 <= k < |slots| :: slots[k].Some? <==> Back(|slots|, head, k) < |s|
  {
    var n := |slots|;
    forall k | 0 <= k < n
      ensures slots[k].Some? <==> Back(n, head, k) < |s|
    {
      assert k == At(n, head, Back(n, head, k));
    }
    forall k | 0 <= k < |s|
      ensures s[k] == s'[k]
    {
      assert slots[At(n, head, k)] == Some(s[k]);
    }
  }

  lemma PrependedSlot<T>(slots: seq<Option<T>>, head: nat, tail: nat, s: seq<T>, x: T, first: nat, k: nat)
    requires Layout(slots, head, tail, s) && |s| + 1 < |slots| && k < |slots|
    requires first == At(|slots|, head, |slots| - 1)
    ensures slots[first := Some(x)][At(|slots|, first, k)] == if k < |s| + 1 then Some(([x] + s)[k]) else None
  {
    if k == 0 {
      assert At(|slots|, first, 0) == first;
    } else {
      if k < |s| + 1 {
        assert slots[At(|slots|, head, k - 1)] == Some(s[k - 1]);
      } else {
        assert slots[At(|slots|, head, k - 1)] == None;
      }
    }
  }

  lemma PrependLayout<T>(slots: seq<Option<T>>, head: nat, tail: nat, s: seq<T>, x: T)
    requires Layout(slots, head, tail, s) && |s| + 1 < |slots|
    ensures var first := At(|slots|, head, |slots| - 1); Layout(slots[first := Some(x)], first, tail, [x] + s)
  {
    var n, first := |slots|, At(|slots|, head, |slots| - 1);
    forall k: nat | k < n
      ensures slots[first := Some(x)][At(n, first, k)] == if k < |s| + 1 then Some(([x] + s)[k]) else None
    {
      PrependedSlot(slots, head, tail, s, x, first, k);
    }
  }

  lemma DropFirstLayout<T>(slots: seq<Option<T>>, head: nat, tail: nat, s: seq<T>)
    requires Layout(slots, head, tail, s) && s != []
    ensures slots[head] == Some(s[0])
    ensures Layout(slots[head := None], At(|slots|, head, 1), tail, s[1..])
  {
    var n, slots', next := |slots|, slots[head := None], At(|slots|, head, 1);
    assert head == At(n, head, 0);
    forall k | 0 <= k < |s| - 1
      ensures slots'[At(n, next, k)] == Some(s[1..][k])
    {
      assert At(n, next, k) == At(n, head, k + 1);
    }
    forall k | |s| - 1 <= k < n
      ensures slots'[At(n, next, k)] == None
    {
      if k + 1 < n { assert At(n, next, k) == At(n, head, k + 1); }
    }
  }

  lemma DropLastLayout<T>(slots: seq<Option<T>>, head: nat, tail: nat, s: seq<T>)
    requires Layout(slots, head, tail, s) && s != []
    ensures var last := At(|slots|, tail, |slots| - 1);
      slots[last] == Some(s[|s| - 1]) && Layout(slots[last := None], head, last, s[..|s| - 1])
  {
    var n, last := |slots|, At(|slots|, tail, |slots| - 1);
    assert last == At(n, head, |s| - 1);
    var slots' := slots[last := None];
    forall k | |s| - 1 <= k < n
      ensures slots'[At(n, head, k)] == None
    {
      if k >= |s| { assert slots[At(n, head, k)] == None; }
    }
  }

  lemma LastSlot<T>(slots: seq<Option<T>>, head: nat, tail: nat, s: seq<T>)
    requires Layout(slots, head, tail, s)
    ensures slots[At(|slots|, tail, |slots| - 1)] == if s == [] then None else Some(s[|s| - 1])
  {
    var n := |slots|;
    assert At(n, tail, n - 1) == At(n, head, if s == [] then n - 1 else |s| - 1);
  }

  /** A window that fills the array: head has met tail, and every slot is in use. */
  ghost predicate Full<T>(slots: seq<Option<T>>, head: nat, s: seq<T>) {
    |s| == |slots| && head < |slots|
    && forall k | 0 <= k < |s| :: slots[At(|slots|, head, k)] == Some(s[k])
  }

  /** A full array whose doubling overflows looks empty and is not laid out as any deque. */
  lemma FullIsNoLayout<T>(slots: seq<Option<T>>, head: nat, s: seq<T>)
    requires Full(slots, head, s)
    ensures forall s' :: !Layout(slots, head, head, s')
  {
    assert slots[At(|slots|, head, 0)] == Some(s[0]);
    forall s'
      ensures !Layout(slots, head, head, s')
    {
      if Layout(slots, head, head, s') {
        assert false;
      }
    }
  }

  /** The elements after the two copies of doubleCapacity. */
  lemma MovedLayout<T>(slots: seq<Option<T>>, head: nat, s: seq<T>, moved: seq<Option<T>>)
    requires Full(slots, head, s) && |moved| == 2 * |slots|
    requires forall k | 0 <= k < |slots| - head :: moved[k] == slots[head + k]
    requires forall k | 0 <= k < head :: moved[|slots| - head + k] == slots[k]
    requires forall k | |slots| <= k < |moved| :: moved[k] == None
    ensures Layout(moved, 0, |slots|, s)
  {
    var n := |slots|;
    forall k | 0 <= k < n
      ensures moved[At(2 * n, 0, k)] == Some(s[k])
    {
      assert slots[At(n, head, k)] == Some(s[k]);
      if k >= n - head { assert moved[n - head + (k - (n - head))] == slots[k - (n - head)]; }
    }
  }

  lemma AppendCase<T>(slots: seq<Option<T>>, head: nat, tail: nat, s: seq<T>, x: T)
    requires Layout(slots, head, tail, s)
    ensures var slots', tail', s' := slots[tail := Some(x)], At(|slots|, tail, 1), s + [x];
      if |s| + 1 < |slots| then Layout(slots', head, tail', s') && head != tail'
      else Full(slots', head, s') && head == tail'
  {
    if |s| + 1 < |slots| {
      LayoutDecides(slots[tail := Some(x)], head, At(|slots|, tail, 1), s + [x], s + [x]);
    }
  }

  lemma PrependCase<T>(slots: seq<Option<T>>, head: nat, tail: nat, s: seq<T>, x: T)
    requires Layout(slots, head, tail, s)
    ensures var head', s' := At(|slots|, head, |slots| - 1), [x] + s;
      var slots' := slots[head' := Some(x)];
      if |s| + 1 < |slots| then Layout(slots', head', tail, s') && head' != tail
      else Full(slots', head', s') && head' == tail
  {
    var head' := At(|slots|, head, |slots| - 1);
    if |s| + 1 < |slots| {
      PrependLayout(slots, head, tail, s, x);
      LayoutDecides(slots[head' := Some(x)], head', tail, [x] + s, [x] + s);
    }
  }

  /** The elements that a loop over `s` visits, when its body leaves the loop at the first
      element that `stop` holds of: all in order, up to and including that one. */
  ghost predicate Visits<T>(s: seq<T>, stop: T -> bool, visited: seq<T>) {
    && visited <= s
    && (forall k | 0 <= k < |visited| - 1 :: !stop(visited[k]))
    && (|visited| < |s| ==> visited != [] && stop(visited[|visited| - 1]))
  }

  /** The first `k` elements are visited; the loop goes on as long as `keep` holds. */
  ghost predicate Visiting<T>(s: seq<T>, stop: T -> bool, visited: seq<T>, k: nat, keep: bool) {
    && k <= |s| && visited == s[..k]
    && (forall i | 0 <= i < k - 1 :: !stop(s[i]))
    && (k > 0 ==> keep == !stop(s[k - 1]))
    && (k == 0 ==> keep)
  }

  /** The two copies of doubleCapacity, into an array of nulls. */
  method Move<T>(elements: array<Option<T>>, head: nat, diff: nat, newCapacity: nat, ghost s: seq<T>)
    returns (newElements: array<Option<T>>)
    requires Full(elements[..], head, s) && diff == elements.Length - head && newCapacity == 2 * elements.Length
    ensures fresh(newElements) && newElements.Length == newCapacity && Layout(newElements[..], 0, elements.Length, s)
  {
    newElements := new Option<T>[newCapacity](_ => None);
    forall k | 0 <= k < diff { newElements[k] := elements[head + k]; }
    forall k | 0 <= k < head { newElements[diff + k] := elements[k]; }
    MovedLayout(elements[..], head, s, newElements[..]);
  }

  class ArrayDeque<T> {
    var head: nat
    var tail: nat
    var size: nat
    var elements: array?<Option<T>>
    ghost var contents: seq<T>

    ghost predicate Valid()
      reads this, elements
    {
      if elements == null then head == 0 && tail == 0 && size == 0 && contents == []
      else
        && size == elements.Length && PowerOfTwo(size) && size <= MAX_CAPACITY
        && Layout(elements[..], head, tail, contents)
    }

    /** One element short of the capacity that cannot be doubled. */
    ghost predicate Saturated()
      reads this
    {
      size == MAX_CAPACITY && |contents| + 1 == size
    }

    /** What an add leaves behind when the capacity cannot be doubled: all slots are taken, and
        head equals tail as if none were. */
    ghost predicate Overrun(s: seq<T>)
      reads this, elements
    {
      elements != null && head == tail && size == elements.Length && Full(elements[..], head, s)
    }

    constructor ()
      ensures Valid() && contents == []
    {
      head, tail, size, elements, contents := 0, 0, 0, null, [];
    }

    method EnsureCapacity()
      requires Valid()
      modifies this
      ensures Valid() && elements != null && contents == old(contents)
      ensures old(elements) != null ==>
                elements == old(elements) && head == old(head) && tail == old(tail) && size == old(size)
      ensures old(elements) == null ==> fresh(elements) && size == 8
    {
      if elements == null {
        head := 0;
        tail := 0;
        size := 8;
        elements := new Option<T>[8](_ => None);
        assert 8 == Pow2(3);
      }
    }

    /** Doubling moves the elements to the front of a new array in order, or gives up. */
    method DoubleCapacity(ghost s: seq<T>)
      requires Overrun(s) && PowerOfTwo(size) && size <= MAX_CAPACITY
      modifies this
      ensures old(size) < MAX_CAPACITY ==> Valid() && contents == s && elements != null && fresh(elements)
      ensures old(size) < MAX_CAPACITY ==> size == 2 * old(size)
      ensures old(size) == MAX_CAPACITY ==> unchanged(this) && forall s' :: !Layout(elements[..], head, tail, s')
    {
      var diff := size - head;
      var newCapacity := DoubledInt(size);
      if newCapacity < 0 {
        FullIsNoLayout(elements[..], head, s);
        return;
      }
      var newElements := Move(elements, head, diff, newCapacity, s);
      DoublesUpTo30(size);
      DoublePowerOfTwo(size);
      tail := size;
      elements := newElements;
      size := newCapacity;
      head := 0;
      contents := s;
    }

    function IsEmpty(): (r: bool)
      requires Valid()
      reads this, elements
      ensures r <==> contents == []
    {
      head == tail
    }

    /** Appends, unless the deque is saturated; then the elements are lost from view, for
        the array holds no deque any more. */
    method AddLast(element: T)
      requires Valid()
      modifies this, elements
      ensures elements != null && (elements == old(elements) || fresh(elements))
      ensures !old(Saturated()) ==> Valid() && contents == old(contents) + [element]
      ensures old(Saturated()) ==> Overrun(old(contents) + [element]) && head == tail
      ensures old(Saturated()) ==> forall s :: !Layout(elements[..], head, tail, s)
    {
      EnsureCapacity();
      ghost var s := contents + [element];
      AppendCase(elements[..], head, tail, contents, element);
      MaskedNeighbours(size, tail);
      ghost var slots := elements[..];
      elements[tail] := Some(element);
      assert elements[..] == slots[tail := Some(element)];
      tail := And(Wrap32(tail + 1), size - 1);
      if tail == head {
        DoubleCapacity(s);
      } else {
        contents := s;
      }
    }

    method AddFirst(element: T)
      requires Valid()
      modifies this, elements
      ensures elements != null && (elements == old(elements) || fresh(elements))
      ensures !old(Saturated()) ==> Valid() && contents == [element] + old(contents)
      ensures old(Saturated()) ==> Overrun([element] + old(contents)) && head == tail
      ensures old(Saturated()) ==> forall s :: !Layout(elements[..], head, tail, s)
    {
      EnsureCapacity();
      ghost var s := [element] + contents;
      PrependCase(elements[..], head, tail, contents, element);
      MaskedNeighbours(size, head);
      head := And(Wrap32(head as int - 1), size - 1);
      ghost var slots := elements[..];
      elements[head] := Some(element);
      assert elements[..] == slots[head := Some(element)];
      if head == tail {
        DoubleCapacity(s);
      } else {
        contents := s;
      }
    }

    method RemoveFirst() returns (result: Option<T>)
      requires Valid()
      modifies this, elements
      ensures elements != null && (elements == old(elements) || fresh(elements))
      ensures Valid()
      ensures old(contents) == [] ==> result == None && contents == []
      ensures old(contents) != [] ==> result == Some(old(contents)[0]) && contents == old(contents)[1..]
    {
      EnsureCapacity();
      LayoutDecides(elements[..], head, tail, contents, contents);
      result := elements[head];
      if result.Some? {
        DropFirstLayout(elements[..], head, tail, contents);
        MaskedNeighbours(size, head);
        elements[head] := None;
        head := And(Wrap32(head + 1), size - 1);
        contents := contents[1..];
      }
    }

    method RemoveLast() returns (result: Option<T>)
      requires Valid()
      modifies this, elements
      ensures elements != null && (elements == old(elements) || fresh(elements))
      ensures Valid()
      ensures old(contents) == [] ==> result == None && contents == []
      ensures old(contents) != [] ==>
                result == Some(old(contents)[|old(contents)| - 1])
                && contents == old(contents)[..|old(contents)| - 1]
    {
      EnsureCapacity();
      MaskedNeighbours(size, tail);
      LastSlot(elements[..], head, tail, contents);
      var last := And(Wrap32(tail as int - 1), size - 1);
      result := elements[last];
      if result.Some? { DropLast(last); }
    }

    method DropLast(last: nat)
      requires Valid() && elements != null && contents != [] && last == At(size, tail, size - 1)
      modifies this, elements
      ensures Valid() && elements == old(elements) && contents == old(contents)[..|old(contents)| - 1]
    {
      DropLastLayout(elements[..], head, tail, contents);
      ghost var slots := elements[..];
      elements[last] := None;
      assert elements[..] == slots[last := None];
      tail := last;
      contents := contents[..|contents| - 1];
    }

    method GetFirst() returns (result: Option<T>)
      requires Valid()
      modifies this
      ensures elements != null && (elements == old(elements) || fresh(elements))
      ensures Valid() && contents == old(contents)
      ensures result == if contents == [] then None else Some(contents[0])
    {
      EnsureCapacity();
      result := elements[head];
    }

    method GetLast() returns (result: Option<T>)
      requires Valid()
      modifies this
      ensures elements != null && (elements == old(elements) || fresh(elements))
      ensures Valid() && contents == old(contents)
      ensures result == if contents == [] then None else Some(contents[|contents| - 1])
    {
      EnsureCapacity();
      MaskedNeighbours(size, tail);
      LastSlot(elements[..], head, tail, contents);
      var last := And(Wrap32(tail as int - 1), size - 1);
      result := elements[last];
    }

    /** ARRAYDEQUE_FOREACH: two nested loops that share a flag, so that leaving the inner one
        leaves both. The loop body leaves at the first element that `stop` holds of. */
    method Foreach(stop: T -> bool) returns (visited: seq<T>)
      requires Valid()
      ensures Visits(contents, stop, visited)
    {
      visited := [];
      if elements == null { return; }
      var i, keep := head, true;
      ghost var k := 0;
      while keep && i != tail
        invariant Visiting(contents, stop, visited, k, keep) && (keep ==> i == At(size, head, k))
        decreases |contents| - k
      {
        visited, keep, i := VisitSlot(i, visited, stop, k);
        k := k + 1;
      }
    }

    /** One round of the outer loop, at the slot of element `k`. */
    method VisitSlot(i: nat, before: seq<T>, stop: T -> bool, ghost k: nat)
      returns (visited: seq<T>, keep: bool, next: nat)
      requires Valid() && elements != null && k <= |contents| && i == At(size, head, k) && i != tail
      ensures k < |contents| && visited == before + [contents[k]] && keep == !stop(contents[k])
          && next == At(size, head, k + 1)
    {
      MaskedNeighbours(size, i);
      visited, keep := VisitItem(elements[i], before, stop);
      keep := !keep;
      next := And(Wrap32(i + 1), size - 1);
    }

    /** The inner loop: it clears the flag unless the body leaves. */
    method VisitItem(item: Option<T>, before: seq<T>, stop: T -> bool) returns (visited: seq<T>, keep: bool)
      requires item.Some?
      ensures visited == before + [item.value] && (keep <==> stop(item.value))
    {
      visited, keep := before, true;
      while keep
        invariant if keep then visited == before else visited == before + [item.value] && !stop(item.value)
        decreases keep
      {
        visited := visited + [item.value];
        if stop(item.value) { break; }
        keep := !keep;
      }
    }
  }
}
