/** The string hash that signs lookup requests in headless.js: a 31-multiplier
    polynomial hash over UTF-16 code units, seeded with 42, whose running value is
    brought back into the signed 32-bit range after every character. */
module SignHash {
  import opened JsString

  const TwoTo31: int := 0x8000_0000
  const TwoTo32: int := 0x1_0000_0000

  /** The seed the request signer uses. */
  const DefaultSeed: int := 42

  type Int32 = x: int | -0x8000_0000 <= x < 0x8000_0000

  /** ECMAScript's ToInt32 on an integer: the signed 32-bit value congruent to
      `x` modulo 2^32. It is what `n &= n` does to `n`. */
  function ToInt32(x: int): (r: Int32)
    ensures (x - r) % TwoTo32 == 0
  {
    (x + TwoTo31) % TwoTo32 - TwoTo31
  }

  /** ToInt32 leaves a value already in range alone. */
  lemma ToInt32InRange(x: Int32)
    ensures ToInt32(x) == x
  {
  }

  lemma ModAddMultiple(x: int, q: int)
    ensures (x + TwoTo32 * q) % TwoTo32 == x % TwoTo32
  {
    var m := TwoTo32;
    var y := x + m * q;
    assert y == m * (x / m + q) + x % m;
    assert 0 <= x % m < m;
    DivModUnique(y, x / m + q, x % m);
  }

  lemma DivModUnique(y: int, d: int, r: int)
    requires 0 <= r < TwoTo32
    requires y == TwoTo32 * d + r
    ensures y % TwoTo32 == r
  {
    var m := TwoTo32;
    assert y == m * (y / m) + y % m;
    assert m * (d - y / m) == y % m - r;
  }

  /** Two integers congruent modulo 2^32 have the same ToInt32. */
  lemma {:induction false} ToInt32Congruent(a: int, b: int)
    requires (a - b) % TwoTo32 == 0
    ensures ToInt32(a) == ToInt32(b)
  {
    var q := (a - b) / TwoTo32;
    assert a - b == TwoTo32 * q;
    ModAddMultiple(b + TwoTo31, q);
    assert a + TwoTo31 == (b + TwoTo31) + TwoTo32 * q;
  }

  /** `n << 5` on a JavaScript number holding an integer: the operand is taken to
      32 bits, shifted, and the result read back as a signed 32-bit value. */
  function ShiftLeft5(n: int): (r: Int32)
    ensures (r - 32 * ToInt32(n)) % TwoTo32 == 0
    ensures r == ToInt32(32 * n)
  {
    var t := ToInt32(n);
    var k := (n - t) / TwoTo32;
    assert n - t == TwoTo32 * k;
    DivModUnique(t * 32 - 32 * n, -32 * k, 0);
    ToInt32Congruent(t * 32, 32 * n);
    ToInt32(t * 32)
  }

  /** One step of the hash on a code unit: h becomes ToInt32(31 * h + c). */
  function Step(h: int, unit: int): Int32
  {
    ToInt32(31 * h + unit)
  }

  /** The hash of `units` from `seed`: the steps applied left to right. */
  function HashOf(seed: Int32, units: seq<int>): Int32
  {
    if units == [] then seed else Step(HashOf(seed, units[..|units| - 1]), units[|units| - 1])
  }

  /** The JavaScript step `(n << 5) - n + c` followed by `n &= n` is the step
      ToInt32(31 * n + c). */
  lemma {:induction false} ShiftStepIsStep(n: Int32, unit: int)
    ensures ToInt32(ShiftLeft5(n) - n + unit) == Step(n, unit)
  {
    ToInt32InRange(n);
    var wide := n * 32;
    assert (wide - ToInt32(wide)) % TwoTo32 == 0;
    assert (wide - n + unit) - (ToInt32(wide) - n + unit) == wide - ToInt32(wide);
    ToInt32Congruent(wide - n + unit, ToInt32(wide) - n + unit);
  }

  /** `hash(e, t)` with `t` defaulting to 42: the loop over `e`'s code units. */
  method Hash(e: string, t: Int32 := DefaultSeed) returns (n: Int32)
    ensures n == HashOf(t, Utf16(e))
  {
    var units := Utf16(e);
    n := t;
    var o := 0;
    while o < |units|
      invariant 0 <= o <= |units|
      invariant n == HashOf(t, units[..o])
    {
      assert units[..o + 1][..o] == units[..o];
      ShiftStepIsStep(n, units[o]);
      n := ToInt32(ShiftLeft5(n) - n + units[o]);
      o := o + 1;
    }
    assert units[..|units|] == units;
  }

  /** The polynomial the hash reduces: seed * 31^n + c_1 * 31^(n-1) + … + c_n,
      in exact integers. */
  function Polynomial(seed: int, units: seq<int>): int
  {
    if units == [] then seed else 31 * Polynomial(seed, units[..|units| - 1]) + units[|units| - 1]
  }

  /** The hash is the Java-style polynomial hash of the code units taken to a
      signed 32-bit value: reducing after every step or once at the end is the same. */
  lemma {:induction false} HashIsPolynomial(seed: Int32, units: seq<int>)
    ensures HashOf(seed, units) == ToInt32(Polynomial(seed, units))
  {
    if units == [] {
      ToInt32InRange(seed);
    } else {
      var init := units[..|units| - 1];
      var c := units[|units| - 1];
      HashIsPolynomial(seed, init);
      var p := Polynomial(seed, init);
      var h := HashOf(seed, init);
      assert (p - h) % TwoTo32 == 0;
      var q := (p - h) / TwoTo32;
      assert p - h == TwoTo32 * q;
      assert (31 * p + c) - (31 * h + c) == TwoTo32 * (31 * q);
      ToInt32Congruent(31 * p + c, 31 * h + c);
    }
  }

  /** With the default seed, hashing the empty string gives 42 back. */
  lemma HashOfEmpty()
    ensures HashOf(DefaultSeed, Utf16("")) == 42
  {
  }
}
