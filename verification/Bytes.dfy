/** Byte strings and the big-endian integers of the wire formats. */
module Bytes {

  type byte = x: int | 0 <= x < 256

  datatype Option<+T> = None | Some(value: T)

  const TWO16 := 0x1_0000
  const TWO32 := 0x1_0000_0000
  const TWO63 := 0x8000_0000_0000_0000
  const TWO64 := 0x1_0000_0000_0000_0000

  /** The low 16 bits of n, as two bytes. */
  function Put16(n: int): (b: seq<byte>)
    ensures |b| == 2
  {
    [(n / 256) % 256, n % 256]
  }

  function Get16(b: seq<byte>): (n: int)
    requires |b| >= 2
    ensures 0 <= n < TWO16
  {
    (b[0] as int) * 256 + b[1] as int
  }

  /** The low 32 bits of n, as four bytes. */
  function Put32(n: int): (b: seq<byte>)
    ensures |b| == 4
  {
    Put16(n / TWO16) + Put16(n)
  }

  function Get32(b: seq<byte>): (n: int)
    requires |b| >= 4
    ensures 0 <= n < TWO32
  {
    Get16(b) * TWO16 + Get16(b[2..])
  }

  function Put64(n: int): (b: seq<byte>)
    ensures |b| == 8
  {
    Put32(n / TWO32) + Put32(n)
  }

  function Get64(b: seq<byte>): (n: int)
    requires |b| >= 8
    ensures 0 <= n < TWO64
  {
    Get32(b) * TWO32 + Get32(b[4..])
  }

  function Zeros(n: nat): (b: seq<byte>)
    ensures |b| == n && forall i :: 0 <= i < n ==> b[i] == 0
  {
    seq(n, i => 0)
  }

  /** Go's copy(dst[at:to], src): as much of src as fits. */
  function CopyInto(dst: seq<byte>, at: nat, to: nat, src: seq<byte>): (b: seq<byte>)
    requires at <= to <= |dst|
    ensures |b| == |dst|
    ensures b[..at] == dst[..at] && b[to..] == dst[to..]
  {
    var n := if |src| < to - at then |src| else to - at;
    dst[..at] + src[..n] + dst[at + n..]
  }

  /** Most significant byte first, in both directions. */
  lemma BigEndian(b: seq<byte>, rest: seq<byte>)
    requires |b| == 8
    ensures Get16(b[..2] + rest) == 0x100 * (b[0] as int) + b[1]
    ensures Get32(b[..4] + rest) ==
            0x100_0000 * (b[0] as int) + 0x1_0000 * (b[1] as int) + 0x100 * (b[2] as int) + b[3]
    ensures Get64(b + rest) == 0x1_0000_0000 * Get32(b[..4]) + Get32(b[4..])
    ensures Put16(Get16(b)) == b[..2] && Put32(Get32(b)) == b[..4] && Put64(Get64(b)) == b
  {
    PutGet32(b);
    PutGet32(b[4..]);
    assert (b[..4] + rest)[2..] == b[2..4] + rest;
    assert (b + rest)[4..] == b[4..] + rest;
    assert b == b[..4] + b[4..] && Get32(b) == Get32(b[..4]);
    hide Get32, Put32;
    assert Get64(b) / TWO32 == Get32(b[..4]);
    Low32(Get32(b[..4]), Get32(b[4..]));
    assert Get32(b + rest) == Get32(b[..4]) && Get32(b[4..] + rest) == Get32(b[4..]) by {
      FrontOnly(b, rest);
      FrontOnly(b[4..], rest);
    }
  }

  lemma FrontOnly(b: seq<byte>, rest: seq<byte>)
    requires |b| >= 4
    ensures Get32(b + rest) == Get32(b[..4])
  {
  }

  lemma PutGet32(b: seq<byte>)
    requires |b| >= 4
    ensures Put32(Get32(b)) == b[..4]
  {
    var n := Get32(b);
    assert n / TWO16 == Get16(b) && n % TWO16 == Get16(b[2..]);
    assert n % 256 == b[3] as int;
    assert (n / 256) % 256 == b[2] as int;
  }

  lemma Low16(k: int, l: int)
    ensures Put16(TWO16 * k + l) == Put16(l)
  {
    var n := TWO16 * k + l;
    assert n / 256 == 256 * k + l / 256;
  }

  lemma Low32(h: int, l: int)
    requires 0 <= h < TWO32 && 0 <= l < TWO32
    ensures Put32(TWO32 * h + l) == Put32(l)
  {
    hide Put16;
    assert (TWO32 * h + l) / TWO16 == TWO16 * h + l / TWO16;
    Low16(h, l / TWO16);
    Low16(TWO16 * h, l);
  }

  lemma Get16Put16(n: int, rest: seq<byte>)
    ensures Get16(Put16(n) + rest) == n % TWO16
  {
  }

  lemma Get32Put32(n: int, rest: seq<byte>)
    ensures Get32(Put32(n) + rest) == n % TWO32
  {
    hide Put16, Get16;
    var b := Put32(n) + rest;
    assert b == Put16(n / TWO16) + (Put16(n) + rest);
    assert b[2..] == Put16(n) + rest;
    Get16Put16(n / TWO16, Put16(n) + rest);
    Get16Put16(n, rest);
    Digits32(n, n / TWO16, n % TWO16);
  }

  lemma Digits32(n: int, h: int, l: int)
    requires n == TWO16 * h + l && 0 <= l < TWO16
    ensures n % TWO32 == h % TWO16 * TWO16 + l
  {
    var p, d := h / TWO16, h % TWO16;
    assert n == TWO32 * p + (d * TWO16 + l);
    assert 0 <= d * TWO16 + l < TWO32;
  }

  lemma Digits64(n: int, h: int, l: int)
    requires n == TWO32 * h + l && 0 <= l < TWO32
    ensures n % TWO64 == h % TWO32 * TWO32 + l
  {
    var p, d := h / TWO32, h % TWO32;
    assert n == TWO64 * p + (d * TWO32 + l);
    assert 0 <= d * TWO32 + l < TWO64;
  }

  lemma Get64Put64(n: int, rest: seq<byte>)
    ensures Get64(Put64(n) + rest) == n % TWO64
  {
    var b := Put64(n) + rest;
    assert b == Put32(n / TWO32) + (Put32(n) + rest);
    assert b[4..] == Put32(n) + rest;
    hide Put32, Get32;
    Get32Put32(n / TWO32, Put32(n) + rest);
    Get32Put32(n, rest);
    Digits64(n, n / TWO32, n % TWO32);
  }

  lemma Assoc3(a: seq<byte>, b: seq<byte>, c: seq<byte>)
    ensures a + b + c == a + (b + c)
  {
  }

  lemma Assoc4(a: seq<byte>, b: seq<byte>, c: seq<byte>, d: seq<byte>)
    ensures a + b + c + d == a + b + (c + d)
  {
  }

  /** Concatenation of a list of byte strings. */
  function Join(bs: seq<seq<byte>>): seq<byte> {
    if bs == [] then [] else bs[0] + Join(bs[1..])
  }

  // ---------------------------------------------------------------- bits

  function Pow2(n: nat): (r: int)
    ensures r > 0
  {
    if n == 0 then 1 else 2 * Pow2(n - 1)
  }

  /** Bit j of a natural number. */
  function Bit(x: nat, j: nat): bool {
    if j == 0 then x % 2 == 1 else Bit(x / 2, j - 1)
  }

  /** A number of n bits is told apart from any other by its bits. */
  lemma {:induction false} BitsDecide(a: nat, b: nat, n: nat)
    requires a < Pow2(n) && b < Pow2(n) && forall j :: 0 <= j < n ==> (Bit(a, j) <==> Bit(b, j))
    ensures a == b
    decreases n
  {
    if n > 0 {
      assert Bit(a, 0) <==> Bit(b, 0);
      forall j | 0 <= j < n - 1
        ensures Bit(a / 2, j) <==> Bit(b / 2, j)
      {
        assert Bit(a, j + 1) <==> Bit(b, j + 1);
      }
      BitsDecide(a / 2, b / 2, n - 1);
    }
  }

  /** The low bits of a number put together from two parts. */
  lemma {:induction false} BitLow(y: nat, x: nat, n: nat, j: nat)
    requires x < Pow2(n)
    ensures Bit(Pow2(n) * y + x, j) == if j < n then Bit(x, j) else Bit(y, j - n)
    decreases n
  {
    if n > 0 {
      var h := Pow2(n - 1);
      assert Pow2(n) * y + x == 2 * (h * y) + x by { assert Pow2(n) * y == 2 * (h * y); }
      assert (2 * (h * y) + x) / 2 == h * y + x / 2 && (2 * (h * y) + x) % 2 == x % 2;
      if j > 0 { BitLow(y, x / 2, n - 1, j - 1); }
    }
  }

  lemma DivTwice(n: nat, p: nat)
    requires p > 0
    ensures n / (2 * p) == (n / 2) / p
  {
    var q, r := (n / 2) / p, (n / 2) % p;
    assert n == 2 * (p * q + r) + n % 2;
    assert n == (2 * p) * q + (2 * r + n % 2);
    DivIs(n, 2 * p, q, 2 * r + n % 2);
  }

  lemma MultipleIsFar(d: nat, k: int)
    ensures k >= 1 ==> d * k >= d
    ensures k <= -1 ==> d * k <= -1 * d
  {
    if k >= 1 { assert d * k == d * (k - 1) + d; }
    if k <= -1 { assert d * k == d * (k + 1) - d; }
  }

  /** Division is unique. */
  lemma DivIs(n: nat, d: nat, q: int, r: nat)
    requires n == d * q + r && r < d
    ensures n / d == q
  {
    var k := n / d - q;
    assert d * k == r - n % d by { assert d * k == d * (n / d) - d * q; }
    MultipleIsFar(d, k);
  }

  ghost predicate AgreeFrom(a: nat, b: nat, m: nat, n: nat) {
    forall j :: m <= j < n ==> Bit(a, j) == Bit(b, j)
  }

  lemma AgreeHalves(a: nat, b: nat, m: nat, n: nat)
    requires 0 < m <= n
    ensures AgreeFrom(a, b, m, n) <==> AgreeFrom(a / 2, b / 2, m - 1, n - 1)
  {
    if AgreeFrom(a, b, m, n) {
      forall j | m - 1 <= j < n - 1
        ensures Bit(a / 2, j) == Bit(b / 2, j)
      {
        assert Bit(a, j + 1) == Bit(b, j + 1);
      }
    }
    if AgreeFrom(a / 2, b / 2, m - 1, n - 1) {
      forall j | m <= j < n
        ensures Bit(a, j) == Bit(b, j)
      {
        assert Bit(a / 2, j - 1) == Bit(b / 2, j - 1);
      }
    }
  }

  /** Two numbers agree above their low m bits exactly when each of those bits is the same. */
  lemma {:induction false} HighBits(a: nat, b: nat, m: nat, n: nat)
    requires m <= n && a < Pow2(n) && b < Pow2(n)
    ensures a / Pow2(m) == b / Pow2(m) <==> AgreeFrom(a, b, m, n)
    decreases n
  {
    if m == 0 {
      if AgreeFrom(a, b, 0, n) { BitsDecide(a, b, n); }
    } else {
      HighBits(a / 2, b / 2, m - 1, n - 1);
      AgreeHalves(a, b, m, n);
      DivTwice(a, Pow2(m - 1));
      DivTwice(b, Pow2(m - 1));
    }
  }

  lemma Powers()
    ensures Pow2(8) == 0x100 && Pow2(16) == 0x1_0000 && Pow2(32) == 0x1_0000_0000
  {
    assert Pow2(4) == 16;
    assert Pow2(12) == 0x1000;
    assert Pow2(20) == 0x10_0000;
    assert Pow2(24) == 0x100_0000;
    assert Pow2(28) == 0x1000_0000;
  }

  /** Bit j of four bytes, counted from the front, in the number they make. */
  lemma Bit32(b: seq<byte>, j: nat)
    requires |b| == 4 && j < 32
    ensures Bit(Get32(b), 31 - j) == Bit(b[j / 8], 7 - j % 8)
  {
    hide Bit, Pow2;
    Powers();
    var hi, lo := Get16(b), Get16(b[2..]);
    BitLow(hi, lo, 16, 31 - j);
    BitLow(b[0], b[1], 8, if j < 16 then 15 - j else 0);
    BitLow(b[2], b[3], 8, if j < 16 then 0 else 31 - j);
  }
}
