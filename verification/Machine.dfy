/** Fixed-width integers of the target: bytes, 16- and 32-bit words, and the
    wrap-around arithmetic the firmware relies on. */
module Machine {
  const TWO16: int := 0x1_0000
  const TWO31: int := 0x8000_0000
  const TWO32: int := 0x1_0000_0000

  type byte = x: int | 0 <= x < 256
  type u16 = x: int | 0 <= x < TWO16
  type u32 = x: int | 0 <= x < TWO32

  datatype Option<+T> = None | Some(value: T)

  function Add32(a: u32, b: u32): u32 { if a + b < TWO32 then a + b else a + b - TWO32 }

  function Sub32(a: u32, b: u32): u32 { if a >= b then a - b else a - b + TWO32 }

  /** The value of a 32-bit word reinterpreted as a two's complement `int32_t`. */
  function Signed32(a: u32): int { if a < TWO31 then a else a - TWO32 }

  /** Little-endian bytes of a word. */
  function Le16(x: u16): (b: seq<byte>)
    ensures |b| == 2
  {
    [x % 256, x / 256]
  }

  function FromLe16(b: seq<byte>): u16
    requires |b| == 2
  {
    (b[0] as int) + 256 * (b[1] as int)
  }

  function Le32(x: u32): (b: seq<byte>)
    ensures |b| == 4
  {
    Le16(x % TWO16) + Le16(x / TWO16)
  }

  function FromLe32(b: seq<byte>): u32
    requires |b| == 4
  {
    (FromLe16(b[..2]) as int) + TWO16 * (FromLe16(b[2..]) as int)
  }

  lemma Le32RoundTrip(x: u32)
    ensures FromLe32(Le32(x)) == x
  {
    var b := Le32(x);
    assert b[..2] == Le16(x % TWO16) && b[2..] == Le16(x / TWO16);
  }

  function Zeros(n: nat): (z: seq<byte>)
    ensures |z| == n
  {
    seq(n, _ => 0)
  }

  function Min(a: int, b: int): int { if a < b then a else b }

  // ---- modular facts -----------------------------------------------------

  lemma MulNotSmall(n: int, d: int)
    requires 0 < n && d != 0
    ensures n * d <= -n || n <= n * d
  {
  }

  lemma ModUnique(a: int, n: int, q: int, r: int)
    requires 0 < n && a == n * q + r && 0 <= r < n
    ensures a % n == r && a / n == q
  {
    var q' := a / n;
    assert n * (q - q') == a % n - r;
    if q != q' {
      MulNotSmall(n, q - q');
    }
  }

  /** Offsets kept modulo 2^32 add and subtract like the unbounded ones. */
  lemma WordOffsets(a: nat, k: nat)
    requires k < TWO32
    ensures Add32(a % TWO32, k) == (a + k) % TWO32
    ensures Sub32((a + k) % TWO32, a % TWO32) == k
  {
    var q, r := a / TWO32, a % TWO32;
    if r + k < TWO32 {
      ModUnique(a + k, TWO32, q, r + k);
    } else {
      ModUnique(a + k, TWO32, q + 1, r + k - TWO32);
    }
  }

  /** Reducing modulo 2^32 keeps the alignment of a word. */
  lemma WordAligned(a: nat)
    requires a % 4 == 0
    ensures (a % TWO32) % 4 == 0
  {
    var q, r := a / TWO32, a % TWO32;
    assert a == 4 * (q * 0x4000_0000) + r;
    ModUnique(r, 4, r / 4, 0);
  }

  /** One conditional subtraction replaces the remainder for a value below 2 n. */
  function Wrap(n: nat, x: int): int { if x >= n then x - n else x }

  /** The remainder by repeated subtraction: the index `off & (n - 1)` of a ring of n bytes. */
  function Phys(n: nat, off: nat): (p: nat)
    requires 0 < n
    ensures p < n
  {
    if off < n then off else Phys(n, off - n)
  }

  lemma {:induction false} PhysIsMod(n: nat, off: nat)
    requires 0 < n
    ensures Phys(n, off) == off % n
  {
    if off < n {
      ModUnique(off, n, 0, off);
    } else {
      PhysIsMod(n, off - n);
      var q := (off - n) / n;
      assert n * (q + 1) == n * q + n;
      ModUnique(off, n, q + 1, (off - n) % n);
    }
  }

  lemma {:induction false} PhysAdd(n: nat, a: nat, k: nat)
    requires 0 < n && k <= n
    ensures Phys(n, a + k) == Wrap(n, Phys(n, a) + k)
  {
    if a < n {
      assert a + k < n || Phys(n, a + k) == Phys(n, a + k - n);
    } else {
      PhysAdd(n, a - n, k);
    }
  }

  lemma {:induction false} PhysPeriod(n: nat, a: nat, m: nat)
    requires 0 < n && Phys(n, m) == 0
    ensures Phys(n, a + m) == Phys(n, a)
    decreases m
  {
    if m < n {
      assert m == 0;
    } else {
      PhysPeriod(n, a, m - n);
    }
  }

  /** Reducing modulo 2^32 first does not disturb the index when n divides 2^32. */
  lemma {:induction false} PhysThroughWord(n: nat, a: nat)
    requires 0 < n && Phys(n, TWO32) == 0
    ensures Phys(n, a % TWO32) == Phys(n, a)
  {
    hide Phys;
    WordPeriod(a);
    if a < TWO32 {
    } else {
      PhysThroughWord(n, a - TWO32);
      PhysPeriod(n, a - TWO32, TWO32);
    }
  }

  lemma WordPeriod(a: nat)
    ensures a % TWO32 == if a < TWO32 then a else (a - TWO32) % TWO32
  {
    if a < TWO32 {
      ModUnique(a, TWO32, 0, a);
    } else {
      var q, r := (a - TWO32) / TWO32, (a - TWO32) % TWO32;
      ModUnique(a, TWO32, q + 1, r);
    }
  }

  lemma {:induction false} PhysAligned(n: nat, a: nat)
    requires 0 < n && n % 4 == 0 && a % 4 == 0
    ensures Phys(n, a) % 4 == 0
  {
    if a < n {
    } else {
      PhysAligned(n, a - n);
    }
  }
}
