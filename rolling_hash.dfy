/** Arithmetic shared by the two Rabin–Karp variants (RabinKarpCount.cpp and
    RabinKarp.cpp): the base-257 Horner hash reduced modulo 1000000007, binary
    exponentiation, and the step that drops the leading character of a window.
    The C++ code computes in `long long`; the newtype Int64 carries that range,
    so every arithmetic operation written on Int64 values below is checked not
    to overflow. */
module RollingHash {

  /** `cnst` in the source. */
  const Base: int := 257
  /** `mod` in the source; its initialiser `1e9 + 7` converts exactly to this integer. */
  const Modulus: int := 1_000_000_007

  /** The same two constants as `long long` operands of the loops. */
  const Base64: Int64 := Base as Int64
  const Modulus64: Int64 := Modulus as Int64

  /** The largest a with a * a inside the signed 64-bit range. */
  const MaxFactor: int := 3_037_000_499

  newtype Int64 = x: int | -0x8000_0000_0000_0000 <= x < 0x8000_0000_0000_0000
  newtype Int32 = x: int | -0x8000_0000 <= x < 0x8000_0000
  newtype UInt32 = x: int | 0 <= x < 0x1_0000_0000

  /** Characters whose code is the same whether `char` is signed or not. */
  predicate IsAscii(s: string)
  {
    forall i :: 0 <= i < |s| ==> s[i] as int < 128
  }

  function Pow(a: int, b: nat): int
  {
    if b == 0 then 1 else a * Pow(a, b - 1)
  }

  /** The exact base-257 value of s, most significant character first. */
  function Poly(s: string): int
  {
    if s == [] then 0 else Poly(s[..|s| - 1]) * Base + s[|s| - 1] as int
  }

  /** The hash the source computes: Horner's rule, reduced after every character. */
  function Hash(s: string): (h: int)
    ensures 0 <= h < Modulus
  {
    if s == [] then 0 else (Hash(s[..|s| - 1]) * Base + s[|s| - 1] as int) % Modulus
  }

  /** The at most m characters of t that end just before position n: the
      window the rolling hash covers after n characters have been read. */
  function Window(t: string, m: nat, n: nat): (w: string)
    requires n <= |t|
    ensures |w| == if n >= m then m else n
  {
    t[if n >= m then n - m else 0 .. n]
  }

  /** The window of |pattern| characters ending at index i of target has the
      pattern's hash: the comparison both variants make after reading target[i]. */
  ghost predicate Hit(target: string, pattern: string, i: int)
  {
    |pattern| - 1 <= i < |target| && Hash(target[i + 1 - |pattern|..i + 1]) == Hash(pattern)
  }

  /** The pattern occurs in target starting at j. */
  predicate OccursAt(target: string, pattern: string, j: int)
  {
    0 <= j && j + |pattern| <= |target| && target[j..j + |pattern|] == pattern
  }

  /** `Hit` indexed by the window's start, the position RabinKarp.cpp
      returns. */
  ghost predicate HashMatchAt(target: string, pattern: string, j: int)
  {
    0 <= j && Hit(target, pattern, j + |pattern| - 1)
  }

  /** Reading one more character is one Horner step. */
  lemma HashSnoc(s: string, c: char)
    ensures Hash(s + [c]) == (Hash(s) * Base + c as int) % Modulus
  {
    assert (s + [c])[..|s|] == s;
  }

  lemma ModAddMultiple(x: int, k: int)
    ensures (x + k * Modulus) % Modulus == x % Modulus
  {
  }

  lemma ModMulLeft(x: int, y: int)
    ensures (x % Modulus * y) % Modulus == (x * y) % Modulus
  {
    var q, r := x / Modulus, x % Modulus;
    assert x == q * Modulus + r;
    assert x * y == r * y + (q * y) * Modulus by {
      assert x * y == (q * Modulus + r) * y;
    }
    ModAddMultiple(r * y, q * y);
  }

  lemma ModMulRight(x: int, y: int)
    ensures (x * (y % Modulus)) % Modulus == (x * y) % Modulus
  {
    ModMulLeft(y, x);
    assert x * (y % Modulus) == y % Modulus * x;
  }

  lemma {:induction false} PowMod(a: int, b: nat)
    ensures Pow(a % Modulus, b) % Modulus == Pow(a, b) % Modulus
  {
    if b > 0 {
      var r := a % Modulus;
      PowMod(a, b - 1);
      calc {
        Pow(r, b) % Modulus;
        (r * Pow(r, b - 1)) % Modulus;
        { ModMulLeft(a, Pow(r, b - 1)); }
        (a * Pow(r, b - 1)) % Modulus;
        { ModMulRight(a, Pow(r, b - 1)); }
        (a * (Pow(r, b - 1) % Modulus)) % Modulus;
        (a * (Pow(a, b - 1) % Modulus)) % Modulus;
        { ModMulRight(a, Pow(a, b - 1)); }
        (a * Pow(a, b - 1)) % Modulus;
      }
    }
  }

  lemma {:induction false} PowSquare(a: int, k: nat)
    ensures Pow(a * a, k) == Pow(a, 2 * k)
  {
    if k > 0 {
      PowSquare(a, k - 1);
      calc {
        Pow(a * a, k);
        a * a * Pow(a, 2 * k - 2);
        a * (a * Pow(a, 2 * k - 2));
        a * Pow(a, 2 * k - 1);
        Pow(a, 2 * k);
      }
    }
  }

  lemma ModMulCongruent(x: int, p: int, q: int)
    requires p % Modulus == q % Modulus
    ensures (x * p) % Modulus == (x * q) % Modulus
  {
    ModMulRight(x, p);
    ModMulRight(x, q);
  }

  lemma BinPowOdd(res: int, a: int, h: nat)
    ensures ((res * a) % Modulus * Pow((a * a) % Modulus, h)) % Modulus == (res * Pow(a, 2 * h + 1)) % Modulus
  {
    var p, q := Pow((a * a) % Modulus, h), Pow(a, 2 * h);
    PowMod(a * a, h);
    PowSquare(a, h);
    ModMulLeft(res * a, p);
    ModMulCongruent(res * a, p, q);
    assert Pow(a, 2 * h + 1) == a * q;
    assert res * a * q == res * (a * q);
  }

  lemma BinPowEven(res: int, a: int, h: nat)
    ensures (res * Pow((a * a) % Modulus, h)) % Modulus == (res * Pow(a, 2 * h)) % Modulus
  {
    PowMod(a * a, h);
    PowSquare(a, h);
    ModMulCongruent(res, Pow((a * a) % Modulus, h), Pow(a, 2 * h));
  }

  /** One turn of the bin_pow loop keeps res * a^b fixed modulo the prime. */
  lemma BinPowStep(res: int, a: int, b: nat, res': int, a': int, b': nat)
    requires b > 0 && b' == b / 2 && a' == (a * a) % Modulus
    requires res' == if b % 2 == 1 then (res * a) % Modulus else res
    ensures (res' * Pow(a', b')) % Modulus == (res * Pow(a, b)) % Modulus
  {
    if b % 2 == 1 {
      BinPowOdd(res, a, b');
      assert 2 * b' + 1 == b;
    } else {
      BinPowEven(res, a, b');
      assert 2 * b' == b;
    }
  }

  lemma MulBound(x: int, y: int, hx: int, hy: int)
    requires 0 <= x <= hx && 0 <= y <= hy
    ensures 0 <= x * y <= hx * hy
  {
    assert x * y <= hx * y;
  }

  /** The Horner hash is the exact base-257 value of the string reduced
      modulo 1000000007: reducing after every step loses nothing. */
  lemma {:induction false} HashIsPolyMod(s: string)
    ensures Hash(s) == Poly(s) % Modulus
  {
    if s != [] {
      var init, c := s[..|s| - 1], s[|s| - 1] as int;
      HashIsPolyMod(init);
      var q, r := Poly(init) / Modulus, Poly(init) % Modulus;
      assert Poly(init) * Base == (q * Base) * Modulus + r * Base;
      ModAddMultiple(r * Base + c, q * Base);
    }
  }

  /** Prepending a character adds it with weight 257^|w|. */
  lemma {:induction false} PolyPrepend(c: char, w: string)
    ensures Poly([c] + w) == c as int * Pow(Base, |w|) + Poly(w)
  {
    var v := [c] + w;
    if w == [] {
      assert v[..0] == [];
    } else {
      var init := w[..|w| - 1];
      assert v[..|v| - 1] == [c] + init;
      PolyPrepend(c, init);
      calc {
        Poly(v);
        Poly([c] + init) * Base + w[|w| - 1] as int;
        (c as int * Pow(Base, |init|) + Poly(init)) * Base + w[|w| - 1] as int;
        { assert (c as int * Pow(Base, |init|)) * Base == c as int * Pow(Base, |w|); }
        c as int * Pow(Base, |w|) + Poly(w);
      }
    }
  }

  /** Subtraction respects congruence modulo the prime. */
  lemma ModSubCongruent(a: int, a': int, b: int, b': int)
    requires a % Modulus == a' % Modulus && b % Modulus == b' % Modulus
    ensures (a - b) % Modulus == (a' - b') % Modulus
  {
    var k := (a / Modulus - a' / Modulus) - (b / Modulus - b' / Modulus);
    assert a - b == (a' - b') + k * Modulus;
    ModAddMultiple(a' - b', k);
  }

  lemma PolySplitFirst(w: string)
    requires |w| >= 1
    ensures Poly(w) == w[0] as int * Pow(Base, |w| - 1) + Poly(w[1..])
  {
    assert w == [w[0]] + w[1..];
    PolyPrepend(w[0], w[1..]);
  }

  /** The arithmetic of the rolling step, on plain integers. */
  lemma RollArith(pw: int, p: int, c: int, pr: int, power: int, y: int, z: int)
    requires pw == c * p + pr
    requires power == p % Modulus
    requires y == pw % Modulus - power * c
    requires 0 <= z < Modulus && z % Modulus == y % Modulus
    ensures z == pr % Modulus
  {
    var pc := p * c;
    ModMulLeft(p, c);
    ModOfMod(pw);
    ModSubCongruent(pw % Modulus, pw, power * c, pc);
    assert pw - pc == pr by {
      assert c * p == pc;
    }
    ModOfSmall(z);
  }

  lemma ModOfMod(x: int)
    ensures (x % Modulus) % Modulus == x % Modulus
  {
  }

  lemma ModOfSmall(z: int)
    requires 0 <= z < Modulus
    ensures z % Modulus == z
  {
  }

  /** The rolling step: from the hash of w, subtracting power times w's first
      character, with power == 257^(|w| - 1) mod p, and bringing the value back
      into [0, p) gives the hash of w without its first character. */
  lemma RollWindow(w: string, power: int, y: int, z: int)
    requires |w| >= 1
    requires power == Pow(Base, |w| - 1) % Modulus
    requires y == Hash(w) - power * (w[0] as int)
    requires 0 <= z < Modulus && z % Modulus == y % Modulus
    ensures z == Hash(w[1..])
  {
    PolySplitFirst(w);
    HashIsPolyMod(w);
    HashIsPolyMod(w[1..]);
    RollArith(Poly(w), Pow(Base, |w| - 1), w[0] as int, Poly(w[1..]), power, y, z);
  }

  /** Reading t[i] grows the window by one character; once it holds more
      than m characters, dropping the first gives the next window. */
  lemma WindowGrows(t: string, m: nat, i: nat)
    requires i < |t|
    ensures i < m ==> Window(t, m, i) + [t[i]] == Window(t, m, i + 1)
    ensures i >= m ==> Window(t, m, i) + [t[i]] == t[i - m..i + 1]
    ensures i >= m ==> t[i - m..i + 1][1..] == Window(t, m, i + 1)
  {
  }

  /** Once n >= m characters have been read, the window is the slice of
      the last m of them. */
  lemma WindowIsSlice(t: string, m: nat, n: nat)
    requires m <= n <= |t|
    ensures Window(t, m, n) == t[n - m..n]
  {
  }

  /** After reading target[i], comparing the rolling value with the
      pattern's hash is exactly the `Hit` test at i. */
  lemma HitIsHashEquality(t: string, pattern: string, i: nat, rolling: int, patternHash: int)
    requires i < |t| && rolling == Hash(Window(t, |pattern|, i + 1)) && patternHash == Hash(pattern)
    ensures Hit(t, pattern, i) <==> i >= |pattern| - 1 && patternHash == rolling
  {
    if i >= |pattern| - 1 {
      WindowIsSlice(t, |pattern|, i + 1);
    }
  }

  /** One turn of the rolling loop (RabinKarpCount.cpp:68-77, the same as
      RabinKarp.cpp:59-68): append target[i] by a Horner step and, once the
      window is longer than the pattern, remove its leading character. The
      rolling value moves from the window before position i to the window
      before position i + 1. */
  method Roll(target: string, patternSize: nat, i: nat, rollingHash: Int64, power: Int64)
    returns (next: Int64)
    requires IsAscii(target) && i < |target|
    requires power as int == Pow(Base, patternSize) % Modulus
    requires rollingHash as int == Hash(Window(target, patternSize, i))
    ensures next as int == Hash(Window(target, patternSize, i + 1))
  {
    ghost var grown := Window(target, patternSize, i) + [target[i]];
    HashSnoc(Window(target, patternSize, i), target[i]);
    WindowGrows(target, patternSize, i);
    next := rollingHash * Base64 + target[i] as int as Int64;
    next := next % Modulus64;
    if i >= patternSize {
      ghost var c := target[i - patternSize] as int;
      MulBound(power as int, c, Modulus, 127);
      next := next - power * (target[i - patternSize] as int as Int64);
      ghost var y := next as int;
      next := AddModulusUntilNonNegative(next);
      RollWindow(grown, power as int, y, next as int);
    }
  }

  /** The `hash` lambda: a loop over the characters with a long long
      accumulator, returned as `unsigned`. */
  method HashOf(s: string) returns (h: UInt32)
    requires IsAscii(s)
    ensures h as int == Hash(s)
  {
    var sum: Int64 := 0;
    for i := 0 to |s|
      invariant sum as int == Hash(s[..i])
    {
      assert s[..i + 1][..i] == s[..i];
      sum := sum * Base64 + s[i] as int as Int64;
      sum := sum % Modulus64;
    }
    assert s[..|s|] == s;
    h := sum as UInt32;
  }

  /** `while (rollingHash < 0) rollingHash += mod;` — written out the same
      way in both variants. It ends, and leaves a value in [0, p) congruent
      to the one it started from. */
  method AddModulusUntilNonNegative(x: Int64) returns (r: Int64)
    requires x as int < Modulus
    ensures 0 <= r as int < Modulus && r as int % Modulus == x as int % Modulus
  {
    r := x;
    while r < 0
      invariant r as int < Modulus && r as int % Modulus == x as int % Modulus
      decreases -(r as int)
    {
      ModAddMultiple(r as int, 1);
      r := r + Modulus64;
    }
  }

  /** The `bin_pow` lambda. `b & 1` and `b >>= 1` on a non-negative b are
      b % 2 and b / 2. The bound on a0 keeps the first `a * a` inside 64 bits;
      the only call passes 257. */
  method BinPow(a0: Int64, b0: Int64) returns (res: Int64)
    requires 0 <= a0 as int <= MaxFactor && 0 <= b0
    ensures res as int == Pow(a0 as int, b0 as int) % Modulus
  {
    res := 1;
    var a, b := a0, b0;
    while b != 0
      invariant 0 <= b && 0 <= a as int <= MaxFactor && 0 <= res as int < Modulus
      invariant (res as int * Pow(a as int, b as int)) % Modulus == Pow(a0 as int, b0 as int) % Modulus
    {
      ghost var res0, a1, b1 := res as int, a as int, b as int;
      if b % 2 == 1 {
        MulBound(res0, a1, Modulus, MaxFactor);
        res := res * a;
        res := res % Modulus64;
      }
      MulBound(a1, a1, MaxFactor, MaxFactor);
      a := a * a;
      a := a % Modulus64;
      b := b / 2;
      BinPowStep(res0, a1, b1, res as int, a as int, b as int);
    }
  }
}
