/** What the models share: the unsigned machine words of the C++ sources, their modular
    arithmetic, and optional results. */
module MachineWords {

  const TWO_32 := 0x1_0000_0000
  const TWO_64 := 0x1_0000_0000_0000_0000

  type uint32 = x: int | 0 <= x < TWO_32
  type uint64 = x: int | 0 <= x < TWO_64

  /** A result that may be missing. */
  datatype Option<T> = None | Some(value: T)

  /** Conversion of a mathematical result to `uint32_t`. */
  function Wrap32(x: int): uint32 {
    x % TWO_32
  }

  /** Conversion of a mathematical result to `uint64_t`. */
  function Wrap64(x: int): uint64 {
    x % TWO_64
  }

  /** `++` on a `uint64_t`. */
  function Increment64(x: uint64): uint64 {
    (x + 1) % TWO_64
  }

  /** `-` on `uint64_t`. */
  function Subtract64(x: uint64, y: uint64): uint64 {
    (x - y) % TWO_64
  }

  predicate IsPowerOfTwo(n: nat) {
    n == 1 || (n > 1 && n % 2 == 0 && IsPowerOfTwo(n / 2))
  }

  /** A power of two divides every power of two that is not smaller. */
  lemma {:induction false} PowersDivide(n: nat, m: nat) returns (q: nat)
    requires IsPowerOfTwo(n) && IsPowerOfTwo(m) && n <= m
    ensures m == n * q
  {
    if n == 1 {
      q := m;
    } else {
      q := PowersDivide(n / 2, m / 2);
      assert n == 2 * (n / 2) && m == 2 * (m / 2);
    }
  }

  lemma {:induction false} PowersMultiply(a: nat, b: nat)
    requires IsPowerOfTwo(a) && IsPowerOfTwo(b)
    ensures a * b > 0 && IsPowerOfTwo(a * b)
  {
    if a > 1 {
      PowersMultiply(a / 2, b);
      assert a * b == 2 * ((a / 2) * b);
    }
  }

  lemma TwoTo64()
    ensures IsPowerOfTwo(TWO_64)
  {
    PowersMultiply(16, 16);
    PowersMultiply(256, 256);
    PowersMultiply(0x1_0000, 0x1_0000);
    PowersMultiply(TWO_32, TWO_32);
  }

  lemma DividesTwo64(n: nat) returns (q: nat)
    requires IsPowerOfTwo(n) && n <= TWO_64
    ensures TWO_64 == n * q
  {
    TwoTo64();
    q := PowersDivide(n, TWO_64);
  }

  /** Quotient and remainder are unique. */
  lemma Quotient(n: int, m: int, q: int, r: int)
    requires m > 0 && n == q * m + r && 0 <= r < m
    ensures n / m == q && n % m == r
  {
    var q', r' := n / m, n % m;
    assert (q - q') * m == r' - r && (q' - q) * m == r - r';
    if q > q' {
      AtLeastOnce(q - q', m);
    } else if q < q' {
      AtLeastOnce(q' - q, m);
    }
  }

  lemma AtLeastOnce(k: int, m: int)
    requires k >= 1 && m >= 0
    ensures k * m >= m
  {
    assert k * m == (k - 1) * m + m;
  }

  lemma Regroup(a: int, b: int, c: int)
    ensures (a * b) * c == a * (c * b)
  {
  }
}
