/** Fixed-width unsigned integers of the C sources, and the arithmetic of the
    8-bit sequence-number space. */
module Words {

  type uint8 = x: int | 0 <= x < 256
  type uint16 = x: int | 0 <= x < 0x1_0000
  type uint32 = x: int | 0 <= x < 0x1_0000_0000

  type Bytes = seq<uint8>

  const TWO32: nat := 0x1_0000_0000

  /** The remainder of x modulo n, turn by turn. The recursive form keeps nonlinear
      arithmetic out of every proof that mentions a wrapped value; the lemmas of this
      module are the way to it. */
  function Reduce(x: int, n: int): (r: int)
    requires n > 0
    ensures 0 <= r < n
    decreases if x < 0 then -x else x
  {
    if x < -n then Reduce(x + n, n)
    else if x < 0 then x + n
    else if x < n then x
    else Reduce(x - n, n)
  }

  /** Conversion to uint8_t: keep the eight low bits. */
  function Wrap8(x: int): uint8 {
    Reduce(x, 256)
  }

  /** Conversion to uint32_t. */
  function Wrap32(x: int): uint32 {
    Reduce(x, 0x1_0000_0000)
  }

  /** x + 1 on uint32_t. */
  function Inc32(x: uint32): (r: uint32)
    ensures r == Wrap32(x + 1)
  {
    if x == 0xffff_ffff then 0 else x + 1
  }

  /** x - y on uint32_t. */
  function Sub32(x: uint32, y: uint32): (r: uint32)
    ensures r == Wrap32(x - y)
  {
    if y <= x then x - y else x - y + 0x1_0000_0000
  }

  /** x + y on uint32_t. */
  function Add32(x: uint32, y: uint32): (r: uint32)
    ensures r == Wrap32(x + y)
  {
    assert x + y >= 0x1_0000_0000 ==> Wrap32(x + y) == Wrap32(x + y - 0x1_0000_0000);
    if x + y < 0x1_0000_0000 then x + y else x + y - 0x1_0000_0000
  }

  // ---------- Remainders

  lemma {:induction false} ReduceIsRemainder(x: int, n: int)
    requires n > 0
    ensures Reduce(x, n) == x % n
    decreases if x < 0 then -x else x
  {
    if x < -n {
      ReduceIsRemainder(x + n, n);
      OneTurn(x, n);
    } else if x < 0 {
      Unique(x, n, -1, x + n);
    } else if x < n {
      Unique(x, n, 0, x);
    } else {
      ReduceIsRemainder(x - n, n);
      OneTurn(x - n, n);
    }
  }

  lemma Unique(x: int, n: int, q: int, r: int)
    requires n > 0 && 0 <= r < n && x == n * q + r
    ensures x % n == r
  {
    var q', r' := x / n, x % n;
    assert x == n * q' + r';
    assert n * (q' - q) == r - r';
    NonzeroMultiple(n, q' - q);
  }

  lemma NonzeroMultiple(n: int, q: int)
    requires n > 0
    ensures q > 0 ==> n * q >= n
    ensures q < 0 ==> n * q <= -n
  {
  }

  lemma OneTurn(x: int, n: int)
    requires n > 0
    ensures (x + n) % n == x % n
  {
    assert x == n * (x / n) + x % n;
    assert x + n == n * (x / n + 1) + x % n;
    Unique(x + n, n, x / n + 1, x % n);
  }

  lemma RemainderShift(a: int, n: int, k: int)
    requires n > 0
    ensures (a + n * k) % n == a % n
  {
    assert a == n * (a / n) + a % n;
    assert a + n * k == n * (a / n + k) + a % n;
    Unique(a + n * k, n, a / n + k, a % n);
  }

  /** Two integers closer than n with the same remainder modulo n are equal. */
  lemma SameRemainder(a: int, b: int, n: int)
    requires n > 0 && a % n == b % n && -n < a - b < n
    ensures a == b
  {
    assert a == n * (a / n) + a % n;
    assert b == n * (b / n) + b % n;
    assert a - b == n * (a / n - b / n);
    NonzeroMultiple(n, a / n - b / n);
  }

  /** Reduction modulo a divisor of m is not disturbed by reduction modulo m. */
  lemma NestedRemainder(a: int, m: nat, n: nat, k: nat)
    requires n > 0 && m == n * k && k > 0
    ensures m > 0 && (a % m) % n == a % n
  {
    NonzeroMultiple(n, k);
    assert a == m * (a / m) + a % m;
    assert m * (a / m) == n * (k * (a / m)) by {
      assert (n * k) * (a / m) == n * (k * (a / m));
    }
    RemainderShift(a % m, n, k * (a / m));
  }

  /** A sum may be reduced before or after its first operand is. */
  lemma RemainderOfSum(a: int, b: int, n: nat)
    requires n > 0
    ensures (a % n + b) % n == (a + b) % n
  {
    assert a + b == (a % n + b) + n * (a / n);
    RemainderShift(a % n + b, n, a / n);
  }

  // ---------- Wrapped values

  lemma ReduceOfSum(a: int, b: int, n: int)
    requires n > 0
    ensures Reduce(Reduce(a, n) + b, n) == Reduce(a + b, n)
  {
    ReduceIsRemainder(a, n);
    ReduceIsRemainder(Reduce(a, n) + b, n);
    ReduceIsRemainder(a + b, n);
    RemainderOfSum(a, b, n);
  }

  /** Arithmetic on uint8_t is arithmetic on the integers, wrapped. */
  lemma Wrap8Sum(a: int, b: int)
    ensures Wrap8(Wrap8(a) + b) == Wrap8(a + b)
    ensures Wrap8(b - Wrap8(a)) == Wrap8(b - a)
  {
    ReduceOfSum(a, b, 256);
    ReduceOfSum(a, b - a - Wrap8(a), 256);
    ReduceIsRemainder(a, 256);
    ReduceIsRemainder(b - Wrap8(a), 256);
    ReduceIsRemainder(b - a, 256);
    assert b - Wrap8(a) == (b - a) + 256 * (a / 256);
    RemainderShift(b - a, 256, a / 256);
  }

  lemma Wrap32Sum(a: int, b: int)
    ensures Wrap32(Wrap32(a) + b) == Wrap32(a + b)
  {
    ReduceOfSum(a, b, TWO32);
  }

  /** Numbers less than a turn apart wrap to the same byte only if equal. */
  lemma SameByte(a: int, b: int)
    requires Wrap8(a) == Wrap8(b) && -256 < a - b < 256
    ensures a == b
  {
    ReduceIsRemainder(a, 256);
    ReduceIsRemainder(b, 256);
    SameRemainder(a, b, 256);
  }
}

/** The window test shared by both endpoints (net.c, net_recv_pkt). */
module Seqnum {
  import opened Words

  /** How far seq is ahead of the position from, on the circle of 256 numbers. */
  function Distance(seqnum: uint8, from: uint8): uint8 {
    Wrap8(seqnum - from)
  }

  predicate InWindow(seqnum: uint8, from: uint8, win: uint8) {
    Distance(seqnum, from) <= win
  }

  /** For a message that is not more than 255 ahead and lags by less than a full
      turn, the 8-bit test answers the unbounded question "is index in
      [base, base + win]" if and only if the lag is at most 255 - win. */
  lemma WindowTestExact(index: nat, base: nat, win: uint8)
    requires -256 < index - base < 256
    ensures (InWindow(Wrap8(index), Wrap8(base), win) <==> base <= index <= base + win)
            <==> base - index <= 255 - win
    ensures base <= index ==> base + Distance(Wrap8(index), Wrap8(base)) == index
  {
    Wrap8Sum(base, Wrap8(index));
    Wrap8Sum(index, 0 - base);
  }

  /** The number a distance ahead of base, seen from an unbounded base. */
  lemma DistanceInverse(seqnum: uint8, base: nat)
    ensures Wrap8(base + Distance(seqnum, Wrap8(base))) == seqnum
  {
    Wrap8Sum(seqnum - Wrap8(base), base);
    Wrap8Sum(base, seqnum + base);
    Wrap8Sum(base, seqnum - Wrap8(base));
    Wrap8Sum(seqnum - Wrap8(base), Wrap8(base));
  }

  /** One step of lag beyond the bound is accepted, and taken for the last number
      of the window. */
  lemma StaleMessageAliases(base: nat, win: uint8)
    requires base >= 256 - win
    ensures InWindow(Wrap8(base - (256 - win)), Wrap8(base), win)
    ensures base + Distance(Wrap8(base - (256 - win)), Wrap8(base)) == base + win
  {
    var index := base - (256 - win);
    Wrap8Sum(base, Wrap8(index));
    Wrap8Sum(index, 0 - base);
  }
}

/** An optional value. */
module Options {
  datatype Option<+T> = None | Some(value: T)
}
