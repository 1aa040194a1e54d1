/** A C# `ulong` as 64 bits, bit 0 (the least significant) first, with the
    operators the packed board uses: `~`, `&`, `|`, `<<`, `>>`, the unchecked
    `(ulong)` conversion of an `int` and the `(int)` conversion of a small
    word. Every operator is defined bit by bit, so overflow past bit 63 and
    the masking of shift counts are explicit. */
module Word64 {

  type Word = w: seq<bool> | |w| == 64 witness seq(64, _ => false)

  /** 2^64: `(ulong)v` keeps v modulo this. */
  const Modulus := 0x1_0000_0000_0000_0000

  const Zero: Word := seq(64, _ => false)

  function Not(x: Word): (r: Word)
    ensures forall i :: 0 <= i < 64 ==> r[i] == !x[i]
  {
    seq(64, i requires 0 <= i < 64 => !x[i])
  }

  function And(x: Word, y: Word): (r: Word)
    ensures forall i :: 0 <= i < 64 ==> r[i] == (x[i] && y[i])
  {
    seq(64, i requires 0 <= i < 64 => x[i] && y[i])
  }

  function Or(x: Word, y: Word): (r: Word)
    ensures forall i :: 0 <= i < 64 ==> r[i] == (x[i] || y[i])
  {
    seq(64, i requires 0 <= i < 64 => x[i] || y[i])
  }

  /** `x << s`: C# uses only the low six bits of the count; bits pushed past
      bit 63 are lost and zeros come in at the bottom. */
  function ShiftLeft(x: Word, s: int): (r: Word)
    ensures forall i :: 0 <= i < 64 ==> r[i] == (i >= s % 64 && x[i - s % 64])
  {
    var k := s % 64;
    seq(64, i requires 0 <= i < 64 => i >= k && x[i - k])
  }

  /** `x >> s` on an unsigned word: zeros come in at the top. */
  function ShiftRight(x: Word, s: int): (r: Word)
    ensures forall i :: 0 <= i < 64 ==> r[i] == (i + s % 64 < 64 && x[i + s % 64])
  {
    var k := s % 64;
    seq(64, i requires 0 <= i < 64 => i + k < 64 && x[i + k])
  }

  /** The low k binary digits of n, least significant first. */
  function Bits(n: nat, k: nat): (r: seq<bool>)
    ensures |r| == k
  {
    if k == 0 then [] else [n % 2 == 1] + Bits(n / 2, k - 1)
  }

  /** `(ulong)v` in an unchecked context: two's complement, i.e. v modulo 2^64. */
  function FromInt(v: int): Word {
    Bits(v % Modulus, 64)
  }

  /** The unsigned value of a bit string, least significant bit first. */
  function ToNat(w: seq<bool>): nat {
    if |w| == 0 then 0 else (if w[0] then 1 else 0) + 2 * ToNat(w[1..])
  }

  /** The literal `0x07`: bits 0, 1 and 2 set. */
  function Seven(): Word {
    seq(64, i => i < 3)
  }

  // ---------------------------------------------------------------------------
  // Facts about the conversions

  lemma {:induction false} BitsOfZero(k: nat)
    ensures forall i :: 0 <= i < k ==> !Bits(0, k)[i]
  {
    if k > 0 {
      BitsOfZero(k - 1);
    }
  }

  /** A number below 8 occupies the three low bits; the rest are clear. */
  lemma SmallBits(n: nat, k: nat)
    requires n < 8 && k >= 3
    ensures Bits(n, k)[0] == (n % 2 == 1)
    ensures Bits(n, k)[1] == ((n / 2) % 2 == 1)
    ensures Bits(n, k)[2] == ((n / 4) % 2 == 1)
    ensures forall i :: 3 <= i < k ==> !Bits(n, k)[i]
  {
    assert Bits(n, k) == [n % 2 == 1] + ([(n / 2) % 2 == 1] + ([(n / 4) % 2 == 1] + Bits(0, k - 3)));
    BitsOfZero(k - 3);
  }

  /** The three low bits of any n spell n % 8. */
  lemma LowBits(n: nat, k: nat)
    requires k >= 3
    ensures (if Bits(n, k)[0] then 1 else 0) + 2 * (if Bits(n, k)[1] then 1 else 0)
          + 4 * (if Bits(n, k)[2] then 1 else 0) == n % 8
  {
    var h, q := n / 2, n / 2 / 2;
    assert Bits(n, k)[1] == (h % 2 == 1);
    assert Bits(n, k)[2] == Bits(h, k - 1)[1] == (q % 2 == 1);
    assert n == 2 * h + n % 2 && h == 2 * q + h % 2 && q == 2 * (q / 2) + q % 2;
    ModEight(n, q / 2, n % 2 + 2 * (h % 2) + 4 * (q % 2));
  }

  lemma ModEight(n: int, t: int, s: int)
    requires n == 8 * t + s && 0 <= s < 8
    ensures n % 8 == s
  {
  }

  lemma {:induction false} ToNatOfClear(w: seq<bool>)
    requires forall i :: 0 <= i < |w| ==> !w[i]
    ensures ToNat(w) == 0
  {
    if |w| > 0 {
      ToNatOfClear(w[1..]);
    }
  }

  /** A word whose bits from 3 up are clear is worth its three low bits. */
  lemma ToNatOfLow3(w: Word)
    requires forall i :: 3 <= i < 64 ==> !w[i]
    ensures ToNat(w) == (if w[0] then 1 else 0) + 2 * (if w[1] then 1 else 0) + 4 * (if w[2] then 1 else 0)
  {
    ToNatOfClear(w[3..]);
    assert w[1..][1..][1..] == w[3..];
    assert ToNat(w[1..][1..]) == (if w[2] then 1 else 0) + 2 * ToNat(w[3..]);
    assert ToNat(w[1..]) == (if w[1] then 1 else 0) + 2 * ToNat(w[1..][1..]);
  }

  /** Reducing modulo 2^64 keeps the residue modulo 8 (two's complement keeps
      the low bits). */
  lemma ModulusKeepsLowBits(v: int)
    ensures (v % Modulus) % 8 == v % 8
  {
    var q, r := v / Modulus, v % Modulus;
    assert v == Modulus * q + r;
    ShiftByEights(0x2000_0000_0000_0000 * q, r);
  }

  lemma ShiftByEights(k: int, r: int)
    ensures (8 * k + r) % 8 == r % 8
  {
  }

  /** The low three bits of `(ulong)v` spell v % 8, with `%` Euclidean, which
      is what two's complement gives for negative v as well. */
  lemma FromIntLow(v: int)
    ensures (if FromInt(v)[0] then 1 else 0) + 2 * (if FromInt(v)[1] then 1 else 0)
          + 4 * (if FromInt(v)[2] then 1 else 0) == v % 8
  {
    LowBits(v % Modulus, 64);
    ModulusKeepsLowBits(v);
  }

  /** A value in 0..7 converts to a word with only its three low bits. */
  lemma FromIntSmall(v: int)
    requires 0 <= v < 8
    ensures forall i :: 3 <= i < 64 ==> !FromInt(v)[i]
  {
    assert v % Modulus == v;
    SmallBits(v, 64);
  }

  /** A value in 8..15 converts to a word with bit 3 set and nothing above it. */
  lemma FromIntNextField(v: int)
    requires 8 <= v < 16
    ensures (if FromInt(v)[0] then 1 else 0) + 2 * (if FromInt(v)[1] then 1 else 0)
          + 4 * (if FromInt(v)[2] then 1 else 0) == v - 8
    ensures FromInt(v)[3]
    ensures forall i :: 4 <= i < 64 ==> !FromInt(v)[i]
  {
    assert v % Modulus == v;
    var n := v - 8;
    assert v / 2 / 2 / 2 == 1 && v / 2 / 2 / 2 / 2 == 0;
    assert Bits(v, 64) == [v % 2 == 1] + ([(v / 2) % 2 == 1] + ([(v / 4) % 2 == 1] + ([true] + Bits(0, 60))));
    BitsOfZero(60);
    assert n % 2 == v % 2 && (n / 2) % 2 == (v / 2) % 2 && (n / 4) % 2 == (v / 4) % 2;
  }
}
