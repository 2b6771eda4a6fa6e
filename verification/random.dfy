/** The seeded pseudo-random source of `dungeonGenerator.js` (class
    `SeededRandom`). The JavaScript object keeps its state in a mutable
    field; here the state is a natural number threaded explicitly through
    pure functions, and every draw returns the value together with the new
    state. */
module SeededRandom {
  import opened Options

  /** Constants of the linear congruential step. */
  const Modulus: nat := 233280
  const Multiplier: nat := 9301
  const Increment: nat := 49297

  const TwoTo31: int := 0x8000_0000
  const TwoTo32: int := 0x1_0000_0000

  /** A UTF-16 code unit, as `charCodeAt` returns it. */
  type CodeUnit = c: int | 0 <= c < 0x1_0000

  /** A drawn value together with the state after the draw. */
  datatype Drawn<+T> = Drawn(value: T, rng: nat)

  predicate IsInt32(x: int) {
    -TwoTo31 <= x < TwoTo31
  }

  /** JavaScript's ToInt32 conversion, applied by `<<` and `&`: reduce modulo
      2^32 into the signed 32-bit range. */
  function ToInt32(x: int): (r: int)
    ensures IsInt32(r)
    ensures x == r + TwoTo32 * Wraps(x)
  {
    var m := x % TwoTo32;
    if m >= TwoTo31 then m - TwoTo32 else m
  }

  /** How many multiples of 2^32 ToInt32 takes off x. */
  function Wraps(x: int): int {
    if x % TwoTo32 >= TwoTo31 then x / TwoTo32 + 1 else x / TwoTo32
  }

  /** ToInt32 is the only signed 32-bit value that differs from x by a
      multiple of 2^32. */
  lemma ToInt32Unique(x: int, r: int, k: int)
    requires IsInt32(r) && x == r + TwoTo32 * k
    ensures ToInt32(x) == r
  {
    if r >= 0 {
      assert x % TwoTo32 == r;
    } else {
      assert x % TwoTo32 == r + TwoTo32;
    }
  }

  /** A left shift by 5: the operand is converted to a signed 32-bit integer,
      shifted, and the result is again a signed 32-bit integer. */
  function ShiftLeft5(hash: int): int {
    ToInt32(ToInt32(hash) * 32)
  }

  /** One iteration of the hash loop: the hash times 31 (a shift by 5 less
      the hash) plus the character's code unit, brought back to a signed
      32-bit integer by the bitwise and of the hash with itself. */
  function HashStep(hash: int, c: CodeUnit): int {
    ToInt32(ShiftLeft5(hash) - hash + c)
  }

  /** The value of `hash` after the loop has consumed all of `str`. */
  function HashLoop(str: seq<CodeUnit>): (h: int)
    ensures IsInt32(h)
  {
    if |str| == 0 then 0 else HashStep(HashLoop(str[..|str| - 1]), str[|str| - 1])
  }

  /** `hashString`: the absolute value of the wrapped hash, which is the
      initial state of the generator. */
  function HashString(str: seq<CodeUnit>): (seed: nat)
    ensures seed <= TwoTo31
  {
    var h := HashLoop(str);
    if h < 0 then -h else h
  }

  /** The reference definition of the hash: the code units weighted by powers
      of 31, without any wrap-around. */
  function PolynomialHash(str: seq<CodeUnit>): int {
    if |str| == 0 then 0 else 31 * PolynomialHash(str[..|str| - 1]) + str[|str| - 1]
  }

  /** The shift-and-subtract step is multiplication by 31 modulo 2^32. */
  lemma HashStepIsTimes31(hash: int, c: CodeUnit)
    ensures HashStep(hash, c) == ToInt32(31 * hash + c)
  {
    var t := ToInt32(hash);
    var sh := ToInt32(t * 32);
    var r := ToInt32(31 * hash + c);
    var w1, w2, w3 := Wraps(hash), Wraps(t * 32), Wraps(31 * hash + c);
    assert sh - hash + c == r + TwoTo32 * (w3 - 32 * w1 - w2);
    ToInt32Unique(sh - hash + c, r, w3 - 32 * w1 - w2);
  }

  /** A step from the wrapped value of p is the wrapped value of the step
      from p. */
  lemma WrappedStep(h: int, p: int, c: CodeUnit)
    requires h == ToInt32(p)
    ensures HashStep(h, c) == ToInt32(31 * p + c)
  {
    HashStepIsTimes31(h, c);
    var w, w' := Wraps(p), Wraps(31 * p + c);
    assert 31 * h + c == ToInt32(31 * p + c) + TwoTo32 * (w' - 31 * w);
    ToInt32Unique(31 * h + c, ToInt32(31 * p + c), w' - 31 * w);
  }

  /** The loop computes the polynomial hash reduced to signed 32 bits. */
  lemma {:induction false} HashIsWrappedPolynomial(str: seq<CodeUnit>)
    ensures HashLoop(str) == ToInt32(PolynomialHash(str))
  {
    if |str| > 0 {
      var pre, c := str[..|str| - 1], str[|str| - 1];
      HashIsWrappedPolynomial(pre);
      WrappedStep(HashLoop(pre), PolynomialHash(pre), c);
    }
  }

  /** `next()`: one linear congruential step. The float it returns is
      `state / Modulus`, a number in [0, 1). */
  function Next(s: nat): (r: nat)
    ensures r < Modulus
  {
    (s * Multiplier + Increment) % Modulus
  }

  /** The state after k calls of `next()`. */
  function Advance(s: nat, k: nat): nat {
    if k == 0 then s else Next(Advance(s, k - 1))
  }

  /** Drawing j numbers and then k more is drawing j + k numbers. */
  lemma {:induction false} AdvanceAdd(s: nat, j: nat, k: nat)
    ensures Advance(Advance(s, j), k) == Advance(s, j + k)
  {
    if k > 0 {
      AdvanceAdd(s, j, k - 1);
    }
  }

  lemma ScaledStateBelow(s: nat, n: int)
    requires s < Modulus
    ensures n >= 1 ==> 0 <= s * n / Modulus < n
  {
    if n >= 1 {
      var d := Modulus - s;
      assert Modulus * n - s * n == d * n;
      assert d * n >= n by { MulAtLeast(d, n); }
      var q := s * n / Modulus;
      assert Modulus * q <= s * n;
      assert s * n >= 0 by { MulAtLeast(s + 1, n); }
    }
  }

  lemma MulAtLeast(d: int, n: int)
    requires d >= 1 && n >= 1
    ensures d * n >= n
  {
  }

  lemma MulMonotone(m: int, a: int, b: int)
    requires m >= 0 && a <= b
    ensures m * a <= m * b
  {
    assert m * b - m * a == m * (b - a);
  }

  /** `nextInt(min, max)`: the next float scaled to the max - min + 1
      possible values, rounded down and offset by min, computed on the exact
      rational state / Modulus. */
  function NextInt(s: nat, min: int, max: int): (r: Drawn<int>)
    ensures r.rng == Next(s)
    ensures min <= max ==> min <= r.value <= max
  {
    var s' := Next(s);
    ScaledStateBelow(s', max - min + 1);
    Drawn(s' * (max - min + 1) / Modulus + min, s')
  }

  /** `choice(array)`: the element at a drawn index; an empty array yields
      `undefined`, here `None`, and still consumes a draw. */
  function Choice<T>(s: nat, items: seq<T>): (r: Drawn<Option<T>>)
    ensures r.rng == Next(s)
    ensures r.value.Some? <==> |items| > 0
    ensures r.value.Some? ==> r.value.value in items
  {
    var k := NextInt(s, 0, |items| - 1);
    if 0 <= k.value < |items| then Drawn(Some(items[k.value]), k.rng) else Drawn(None, k.rng)
  }

  function Swap<T>(a: seq<T>, i: nat, j: nat): (r: seq<T>)
    requires i < |a| && j < |a|
    ensures |r| == |a| && multiset(r) == multiset(a)
    ensures r[i] == a[j] && r[j] == a[i]
    ensures forall k | 0 <= k < |a| && k != i && k != j :: r[k] == a[k]
  {
    a[i := a[j]][j := a[i]]
  }

  /** `shuffle(array)`: Fisher–Yates on a copy. Sequences are values, so the
      input is left untouched; the result is a permutation of it and the
      state has advanced once per position from the last down to 1. */
  method Shuffle<T>(items: seq<T>, s: nat) returns (shuffled: seq<T>, s': nat)
    ensures |shuffled| == |items|
    ensures multiset(shuffled) == multiset(items)
    ensures s' == Advance(s, if |items| > 0 then |items| - 1 else 0)
  {
    shuffled := items;
    s' := s;
    if |items| == 0 {
      return;
    }
    var i := |items| - 1;
    while i > 0
      invariant 0 <= i < |items|
      invariant |shuffled| == |items|
      invariant multiset(shuffled) == multiset(items)
      invariant s' == Advance(s, |items| - 1 - i)
    {
      var j := NextInt(s', 0, i);
      shuffled := Swap(shuffled, i, j.value);
      s' := j.rng;
      i := i - 1;
    }
  }
}
