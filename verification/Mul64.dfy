/** `mul64_32x32`: a 64-bit product out of four 16-bit partial products. Every operation is
    one on 32-bit words, so every result is reduced modulo 2^32. */
module Mul64 {
  import opened Arith
  import opened Types

  const WORD := 0x1_0000_0000
  const HALF := 0x1_0000

  function Wrap(x: int): u32 { x % WORD }

  /** The partial sums of the multiplication. */
  datatype Partial = Partial(w0: u32, t: u32, w1: u32, high: u32)

  function Partials(u: u32, v: u32): Partial {
    var u0, u1, v0, v1 := u % HALF, u / HALF, v % HALF, v / HALF;
    Sums(u1 * v1, u1 * v0, u0 * v1, u0 * v0)
  }

  function Sums(u1v1: int, u1v0: int, u0v1: int, u0v0: int): Partial {
    var w0 := Wrap(u0v0);
    var t := Wrap(Wrap(u1v0) + w0 / HALF);
    var w1 := Wrap(Wrap(u0v1) + t % HALF);
    Partial(w0, t, w1, Wrap(Wrap(u1v1) + t / HALF + w1 / HALF))
  }

  function Mul64x32(u: u32, v: u32): nat {
    Partials(u, v).high * WORD + Wrap(u * v)
  }

  lemma HalfProduct(a: int, b: int)
    requires 0 <= a < HALF && 0 <= b < HALF
    ensures 0 <= a * b <= (HALF - 1) * (HALF - 1)
  {
    MulNonNegative(a, b);
    MulMonotone(a, HALF - 1, b);
    MulMonotone(b, HALF - 1, HALF - 1);
  }

  lemma Expand(u1: int, u0: int, v1: int, v0: int)
    ensures (u1 * HALF + u0) * (v1 * HALF + v0) == u1 * v1 * WORD + (u1 * v0 + u0 * v1) * HALF + u0 * v0
  {
  }

  /** With partial products of 16-bit numbers no sum is reduced, and the carries are right. */
  lemma NoPartialOverflow(p11: nat, p10: nat, p01: nat, p00: nat)
    requires p11 <= (HALF - 1) * (HALF - 1) && p10 <= (HALF - 1) * (HALF - 1)
    requires p01 <= (HALF - 1) * (HALF - 1) && p00 <= (HALF - 1) * (HALF - 1)
    ensures var p := Sums(p11, p10, p01, p00);
      && p.w0 == p00 && p.t == p10 + p00 / HALF && p.w1 == p01 + p.t % HALF
      && p.high == p11 + p.t / HALF + p.w1 / HALF
      && p11 * WORD + (p10 + p01) * HALF + p00 == p.high * WORD + p.w1 % HALF * HALF + p.w0 % HALF
  {
    hide Wrap;
    Split(p00);
    Small(p00);
    Small(p10);
    var t := p10 + p00 / HALF;
    Small(t);
    Split(t);
    Small(p01);
    var w1 := p01 + t % HALF;
    Small(w1);
    Split(w1);
    Small(p11);
    Small(p11 + t / HALF + w1 / HALF);
  }

  lemma Small(x: int)
    requires 0 <= x < WORD
    ensures Wrap(x) == x
  {
  }

  lemma Split(x: nat)
    requires x < WORD
    ensures x == x / HALF * HALF + x % HALF && 0 <= x / HALF < HALF && 0 <= x % HALF < HALF
  {
  }

  /** The result is the exact product. */
  lemma ExactProduct(u: u32, v: u32)
    ensures Mul64x32(u, v) == u * v < WORD * WORD
  {
    hide Sums;
    var u0, u1, v0, v1 := u % HALF, u / HALF, v % HALF, v / HALF;
    HalfProduct(u0, v0);
    HalfProduct(u1, v0);
    HalfProduct(u0, v1);
    HalfProduct(u1, v1);
    Expand(u1, u0, v1, v0);
    NoPartialOverflow(u1 * v1, u1 * v0, u0 * v1, u0 * v0);
    var p := Partials(u, v);
    LowWord(u * v, p.high, p.w1 % HALF * HALF + p.w0 % HALF);
  }

  lemma LowWord(x: int, high: nat, low: nat)
    requires x == high * WORD + low && low < WORD
    ensures Wrap(x) == low
  {
  }
}
