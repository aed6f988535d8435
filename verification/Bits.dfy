/** Masks, shifts and 32-bit wrap-around, stated on natural numbers.
    The bitwise operators are defined digit by digit, so that every use of a mask as
    a remainder, or of an `or` as a sum, is proved and not assumed. */
module Bits {
  /** A uint8_t. */
  type byte = b: nat | b < 256

  /** The number of values of a uint32_t. */
  const WRAP: nat := 0x1_0000_0000

  function And(x: nat, y: nat): nat
  {
    if x == 0 || y == 0 then 0
    else (if x % 2 == 1 && y % 2 == 1 then 1 else 0) + 2 * And(x / 2, y / 2)
  }

  function Or(x: nat, y: nat): nat
    decreases x + y
  {
    if x == 0 then y
    else if y == 0 then x
    else (if x % 2 == 1 || y % 2 == 1 then 1 else 0) + 2 * Or(x / 2, y / 2)
  }

  function Pow2(k: nat): (p: nat)
    ensures p >= 1
  {
    if k == 0 then 1 else 2 * Pow2(k - 1)
  }

  /** The C operators << and >> on unsigned words wide enough for the result. */
  function Shl(x: nat, k: nat): nat
  {
    if k == 0 then x else 2 * Shl(x, k - 1)
  }

  function Shr(x: nat, k: nat): nat
    decreases k
  {
    if k == 0 then x else Shr(x / 2, k - 1)
  }

  /** The sizes a ring or a deque may have: powers of two that a uint32_t can hold. */
  ghost predicate PowerOfTwo(n: nat) {
    exists k: nat :: k < 32 && n == Pow2(k)
  }

  /** The uint32_t that a computation on integers leaves behind. */
  function Wrap32(x: int): (r: nat)
    ensures r < WRAP
  {
    x % WRAP
  }

  lemma {:induction false} MaskIsRemainder(x: nat, k: nat)
    ensures And(x, Pow2(k) - 1) == x % Pow2(k)
    decreases k
  {
    if k == 0 {
      assert x % 1 == 0;
    } else {
      var p := Pow2(k - 1);
      var m := Pow2(k) - 1;
      MaskIsRemainder(x / 2, k - 1);
      assert m % 2 == 1 && m / 2 == p - 1;
      HalveRemainder(x, p);
      if x != 0 {
        assert And(x, m) == x % 2 + 2 * And(x / 2, p - 1);
      }
    }
  }

  lemma HalveRemainder(x: nat, p: nat)
    requires p > 0
    ensures x % (2 * p) == x % 2 + 2 * ((x / 2) % p)
  {
    var h := x / 2;
    var q, r := h / p, h % p;
    assert x == (2 * p) * q + (x % 2 + 2 * r);
    RemainderUnique(x, 2 * p, q, x % 2 + 2 * r);
  }

  /** A quotient and an in-range remainder are the ones `/` and `%` compute. */
  lemma RemainderUnique(x: int, d: nat, q: int, r: nat)
    requires r < d
    requires x == d * q + r
    ensures x / d == q && x % d == r
  {
    var q', r' := x / d, x % d;
    assert x == d * q' + r';
    if q > q' {
      FactorGap(d, q', q);
    } else if q < q' {
      FactorGap(d, q, q');
    }
  }

  lemma FactorGap(d: int, a: int, b: int)
    requires d > 0 && a < b
    ensures d * b >= d * a + d
  {
    Distribute(d, a, b - a);
    Distribute(d, 1, b - a - 1);
  }

  lemma Distribute(d: int, a: int, b: int)
    ensures d * (a + b) == d * a + d * b
  {}

  /** Selecting a field with a shifted mask and shifting it down selects the same
      field of the shifted word. */
  lemma {:induction false} ShiftedMask(x: nat, m: nat, k: nat)
    ensures Shr(And(x, Shl(m, k)), k) == And(Shr(x, k), m)
    decreases k
  {
    if k > 0 {
      ShiftedMask(x / 2, m, k - 1);
    }
  }

  /** Masking out a field leaves the field in its place. */
  lemma {:induction false} MaskedInPlace(x: nat, m: nat, k: nat)
    ensures And(x, Shl(m, k)) == Shl(And(Shr(x, k), m), k)
    decreases k
  {
    if k > 0 {
      MaskedInPlace(x / 2, m, k - 1);
    }
  }

  /** A masked field of `width` digits at digit `k`, as arithmetic. */
  lemma Field(x: nat, width: nat, k: nat)
    ensures Shr(And(x, Shl(Pow2(width) - 1, k)), k) == x / Pow2(k) % Pow2(width)
  {
    ShiftedMask(x, Pow2(width) - 1, k);
    ShrDivides(x, k);
    MaskIsRemainder(Shr(x, k), width);
  }

  lemma {:induction false} ShrDivides(x: nat, k: nat)
    ensures Shr(x, k) == x / Pow2(k)
    decreases k
  {
    if k == 0 {
      assert x / 1 == x;
    } else {
      ShrDivides(x / 2, k - 1);
      DivideTwice(x, Pow2(k - 1));
    }
  }

  lemma {:induction false} ShlMultiplies(x: nat, k: nat)
    ensures Shl(x, k) == x * Pow2(k)
    decreases k
  {
    if k > 0 {
      ShlMultiplies(x, k - 1);
    }
  }

  lemma DivideTwice(x: nat, p: nat)
    requires p > 0
    ensures x / (2 * p) == (x / 2) / p
  {
    var h := x / 2;
    var q, r := h / p, h % p;
    assert x == (2 * p) * q + (x % 2 + 2 * r);
    RemainderUnique(x, 2 * p, q, x % 2 + 2 * r);
  }

  /** An `or` whose operands share no binary digit is a sum. */
  lemma {:induction false} OrOfDisjoint(x: nat, y: nat, k: nat)
    requires y < Pow2(k)
    ensures Or(Shl(x, k), y) == Shl(x, k) + y
    decreases k
  {
    if k > 0 && y != 0 && Shl(x, k) != 0 {
      OrOfDisjoint(x, y / 2, k - 1);
    }
  }

  lemma {:induction false} PowersAdd(j: nat, k: nat)
    ensures Pow2(j + k) == Pow2(j) * Pow2(k)
    decreases j
  {
    if j > 0 {
      PowersAdd(j - 1, k);
    }
  }

  lemma Pow2Of32()
    ensures Pow2(32) == WRAP
  {
    assert Pow2(8) == 256;
    PowersAdd(8, 8);
    PowersAdd(16, 16);
  }

  lemma WrapIsMultiple(n: nat) returns (c: nat)
    requires PowerOfTwo(n)
    ensures n > 0 && n * c == WRAP && c > 1
  {
    var k: nat :| k < 32 && n == Pow2(k);
    PowersAdd(k, 32 - k);
    Pow2Of32();
    c := Pow2(32 - k);
  }

  /** A free-running counter that wraps at 2^32 still addresses the slot that the
      unbounded count addresses: 2^32 is a multiple of every power of two below it. */
  lemma CounterSlot(count: int, n: nat)
    requires PowerOfTwo(n)
    ensures n > 0
    ensures And(Wrap32(count), n - 1) == count % n
  {
    var c := WrapIsMultiple(n);
    var k: nat :| k < 32 && n == Pow2(k);
    MaskIsRemainder(Wrap32(count), k);
    RemainderOfRemainder(count, n, c);
  }

  lemma MaskOf(counter: nat, n: nat)
    requires PowerOfTwo(n) && counter < WRAP
    ensures n > 0 && And(counter, n - 1) == counter % n
  {
    CounterSlot(counter, n);
    WrapOfSmall(counter);
  }

  lemma WrapOfSmall(counter: nat)
    requires counter < WRAP
    ensures Wrap32(counter) == counter
  {}

  lemma RemainderOfRemainder(x: int, n: nat, c: nat)
    requires n > 0 && c > 0 && n * c > 0
    ensures (x % (n * c)) % n == x % n
  {
    var q, w := x / (n * c), x % (n * c);
    assert x == n * c * q + w;
    assert n * c * q == n * (c * q);
    assert w == n * (w / n) + w % n;
    assert n * (c * q) + n * (w / n) == n * (c * q + w / n);
    RemainderUnique(x, n, c * q + w / n, w % n);
  }

  lemma WrapOfWrapped(a: int, b: int)
    ensures Wrap32(Wrap32(a) + b) == Wrap32(a + b)
    ensures Wrap32(b - Wrap32(a)) == Wrap32(b - a)
  {
    var q, w := a / WRAP, a % WRAP;
    var q1, r1 := (w + b) / WRAP, (w + b) % WRAP;
    RemainderUnique(a + b, WRAP, q + q1, r1);
    var q2, r2 := (b - w) / WRAP, (b - w) % WRAP;
    RemainderUnique(b - a, WRAP, q2 - q, r2);
  }

  /** The C expression `tail - head` on wrapped counters is the unbounded distance,
      whenever that distance fits. */
  lemma WrappedDistance(tail: int, head: int)
    requires 0 <= tail - head < WRAP
    ensures Wrap32(Wrap32(tail) - Wrap32(head)) == tail - head
  {
    WrapOfWrapped(tail, -(Wrap32(head) as int));
    WrapOfWrapped(head, tail);
  }

  /** Advancing a wrapped counter grows the wrapped distance by as much. */
  lemma DistanceGrows(tail: int, head: int, size: nat)
    requires Wrap32(tail - head) + size < WRAP
    ensures Wrap32(Wrap32(tail + size) - head) == Wrap32(tail - head) + size
  {
    WrapOfWrapped(tail + size, -head);
    WrapOfWrapped(tail - head, size);
  }

  lemma DistanceShrinks(tail: int, head: int, size: nat)
    requires size <= Wrap32(tail - head)
    ensures Wrap32(tail - Wrap32(head + size)) == Wrap32(tail - head) - size
  {
    WrapOfWrapped(head + size, tail);
    WrapOfWrapped(tail - head, -(size as int));
  }

  // ---- windows of a circular array ----

  /** The slot of element `i` of a window of a circular array of `n` slots that starts at slot `offset`, and back
      again. */
  function At(n: nat, offset: nat, i: nat): nat {
    if offset + i < n then offset + i else if offset + i < 2 * n then offset + i - n else 0
  }

  function Back(n: nat, offset: nat, slot: nat): nat {
    if slot >= offset then slot - offset else if slot + n >= offset then slot + n - offset else 0
  }

  /** The masked neighbours of a slot are its circular neighbours. */
  lemma MaskedNeighbours(n: nat, i: nat)
    requires PowerOfTwo(n) && i < n
    ensures And(Wrap32(i + 1), n - 1) == At(n, i, 1)
    ensures And(Wrap32(i as int - 1), n - 1) == At(n, i, n - 1)
  {
    PowerOfTwoPositive(n);
    CounterSlot(i + 1, n);
    CounterSlot(i as int - 1, n);
    RemainderUnique(i + 1, n, if i + 1 < n then 0 else 1, At(n, i, 1));
    RemainderUnique(i as int - 1, n, if i == 0 then -1 else 0, At(n, i, n - 1));
  }

  // ---- products, by repeated addition ----

  /** a * b. Written as a recursion, it stays linear in the proofs that index with it. */
  function Times(a: nat, b: nat): nat {
    if a == 0 then 0 else Times(a - 1, b) + b
  }

  lemma {:induction false} TimesIsProduct(a: nat, b: nat)
    ensures Times(a, b) == a * b
    decreases a
  {
    if a > 0 {
      TimesIsProduct(a - 1, b);
      Distribute(b, a - 1, 1);
    }
  }

  lemma {:induction false} TimesAdds(a: nat, a': nat, b: nat)
    ensures Times(a + a', b) == Times(a, b) + Times(a', b)
    decreases a'
  {
    if a' > 0 { TimesAdds(a, a' - 1, b); }
  }

  lemma {:induction false} TimesGrows(a: nat, b: nat, b': nat)
    requires b <= b'
    ensures Times(a, b) <= Times(a, b')
    decreases a
  {
    if a > 0 { TimesGrows(a - 1, b, b'); }
  }

  lemma TimesMore(a: nat, a': nat, b: nat)
    requires a <= a'
    ensures Times(a, b) <= Times(a', b)
  {
    TimesAdds(a, a' - a, b);
  }

  lemma {:induction false} TimesScales(a: nat, b: nat, k: nat)
    ensures Times(a, k * b) == k * Times(a, b)
    decreases a
  {
    if a > 0 {
      TimesScales(a - 1, b, k);
      Distribute(k, Times(a - 1, b), b);
    }
  }

  lemma PowerOfTwoPositive(n: nat)
    requires PowerOfTwo(n)
    ensures 1 <= n < WRAP
  {
    var c := WrapIsMultiple(n);
    assert n < n * c;
  }

  lemma DoublePowerOfTwo(n: nat)
    requires PowerOfTwo(n) && 2 * n < WRAP
    ensures PowerOfTwo(2 * n)
  {
    var k: nat :| k < 32 && n == Pow2(k);
    assert 2 * n == Pow2(k + 1);
    Pow2Of32();
  }

  lemma {:induction false} PowersOrdered(j: nat, k: nat)
    requires j < k
    ensures 2 * Pow2(j) <= Pow2(k)
    decreases k
  {
    if j + 1 < k { PowersOrdered(j, k - 1); }
  }

  lemma Pow2Of30()
    ensures Pow2(30) == 0x4000_0000
  {
    assert Pow2(10) == 1024;
    PowersAdd(10, 10);
    PowersAdd(20, 10);
  }

  /** No power of two lies between 2^30 and half of it. */
  lemma DoublesUpTo30(n: nat)
    requires PowerOfTwo(n) && n < 0x4000_0000
    ensures 2 * n <= 0x4000_0000
  {
    var k: nat :| k < 32 && n == Pow2(k);
    Pow2Of30();
    if k < 30 { PowersOrdered(k, 30); }
  }
}
