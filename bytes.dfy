/**
 * Byte strings and the integer arithmetic the source applies to them:
 * Python's unbounded `int` with `|` and `<<`, `int.from_bytes`, `reversed`
 * and Python's forgiving slice `s[lo:hi]`.
 */
module Bytes {

  /** An element of a Python `bytes`/`bytearray`. */
  type byte = b: int | 0 <= b < 256

  function Min(a: int, b: int): int { if a <= b then a else b }

  function Pow2(n: nat): (r: nat)
    ensures r >= 1
  {
    if n == 0 then 1 else 2 * Pow2(n - 1)
  }

  function Pow256(k: nat): (r: nat)
    ensures r >= 1
  {
    if k == 0 then 1 else 256 * Pow256(k - 1)
  }

  lemma {:induction false} Pow256IsPow2(k: nat)
    ensures Pow256(k) == Pow2(8 * k)
  {
    if k > 0 {
      Pow256IsPow2(k - 1);
      var n := 8 * (k - 1);
      assert Pow2(n + 8) == 2 * Pow2(n + 7) == 4 * Pow2(n + 6) == 8 * Pow2(n + 5) == 16 * Pow2(n + 4);
      assert Pow2(n + 4) == 2 * Pow2(n + 3) == 4 * Pow2(n + 2) == 8 * Pow2(n + 1) == 16 * Pow2(n);
    }
  }

  lemma {:induction false} Pow256Monotone(j: nat, k: nat)
    requires j <= k
    ensures Pow256(j) <= Pow256(k)
  {
    if j < k {
      Pow256Monotone(j, k - 1);
    }
  }

  /** Python's `x << n` on a non-negative `int`. */
  function ShiftLeft(x: nat, n: nat): (r: nat)
    ensures n % 8 == 0 ==> r == x * Pow256(n / 8)
  {
    Pow256IsPow2(n / 8);
    x * Pow2(n)
  }

  /** Python's `a | b` on non-negative `int`s, bit by bit from the least significant end. */
  function BitOr(a: nat, b: nat): (r: nat)
    ensures a <= r && b <= r && r <= a + b
    decreases a + b
  {
    if a == 0 then b
    else if b == 0 then a
    else 2 * BitOr(a / 2, b / 2) + (if a % 2 == 1 || b % 2 == 1 then 1 else 0)
  }

  /** OR-ing a value shifted past every set bit of `a` is addition. */
  lemma {:induction false} BitOrDisjoint(a: nat, x: nat, n: nat)
    requires a < Pow2(n)
    ensures BitOr(a, ShiftLeft(x, n)) == a + ShiftLeft(x, n)
  {
    if n == 0 {
      assert a == 0;
    } else if a != 0 && x != 0 {
      var h := ShiftLeft(x, n);
      assert h == 2 * ShiftLeft(x, n - 1);
      assert h / 2 == ShiftLeft(x, n - 1) && h % 2 == 0;
      BitOrDisjoint(a / 2, x, n - 1);
    }
  }

  /** The little-endian value of `s`: the sum of `s[i] * 256^i`. */
  function LittleEndian(s: seq<byte>): (r: nat)
    ensures r < Pow256(|s|)
  {
    if s == [] then 0 else s[0] + 256 * LittleEndian(s[1..])
  }

  /** `int.from_bytes(s, "big")`. */
  function BigEndian(s: seq<byte>): (r: nat)
    ensures r < Pow256(|s|)
  {
    if s == [] then 0 else 256 * BigEndian(s[..|s| - 1]) + s[|s| - 1]
  }

  /** `bytes(reversed(s))`. */
  function Reverse<T>(s: seq<T>): (r: seq<T>)
    ensures |r| == |s|
    ensures forall i | 0 <= i < |s| :: r[i] == s[|s| - 1 - i]
  {
    if s == [] then [] else Reverse(s[1..]) + [s[0]]
  }

  lemma {:induction false} BigEndianOfReverse(s: seq<byte>)
    ensures BigEndian(Reverse(s)) == LittleEndian(s)
  {
    if s != [] {
      var r := Reverse(s);
      assert r[..|r| - 1] == Reverse(s[1..]);
      BigEndianOfReverse(s[1..]);
    }
  }

  lemma ShiftedDigit(h: int, a: int, x: int, p: int)
    ensures h + 256 * (a + x * p) == (h + 256 * a) + x * (256 * p)
  {
  }

  lemma {:induction false} LittleEndianAppend(s: seq<byte>, x: byte)
    ensures LittleEndian(s + [x]) == LittleEndian(s) + x * Pow256(|s|)
  {
    if s != [] {
      var t, u := s[1..], s + [x];
      assert u[0] == s[0] && u[1..] == t + [x];
      LittleEndianAppend(t, x);
      ShiftedDigit(s[0], LittleEndian(t), x, Pow256(|t|));
    }
  }

  /** Zero bytes appended at the most significant end do not change the value. */
  lemma {:induction false} LittleEndianZeroPadding(s: seq<byte>, k: nat)
    ensures LittleEndian(s + seq(k, _ => 0)) == LittleEndian(s)
  {
    if s == [] {
      if k > 0 {
        var z := seq(k, _ => 0);
        assert [] + z == z && z[0] == 0;
        assert z[1..] == [] + seq(k - 1, _ => 0);
        LittleEndianZeroPadding([], k - 1);
      }
    } else {
      assert (s + seq(k, _ => 0))[1..] == s[1..] + seq(k, _ => 0);
      LittleEndianZeroPadding(s[1..], k);
    }
  }

  /** Where Python puts a slice bound `i` on a sequence of length `n`. */
  function SliceBound(n: nat, i: int): (b: nat)
    ensures b <= n
    ensures 0 <= i <= n ==> b == i
    ensures i < 0 && -i <= n ==> b == n + i
  {
    if i < 0 then (if n + i < 0 then 0 else n + i)
    else if i > n then n
    else i
  }

  /** Python's `s[lo:hi]`: negative bounds count from the end, bounds outside the sequence are clamped, never an error. */
  function PySlice<T>(s: seq<T>, lo: int, hi: int): (r: seq<T>)
    ensures var l, h := SliceBound(|s|, lo), SliceBound(|s|, hi);
      |r| == (if l < h then h - l else 0) &&
      forall k | 0 <= k < |r| :: r[k] == s[l + k]
  {
    var l, h := SliceBound(|s|, lo), SliceBound(|s|, hi);
    if l < h then s[l..h] else []
  }
}
