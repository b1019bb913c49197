/** Facts about bitwise operators on 32-bit words. */
module Bits {

  lemma NeitherOutside(a: bv32, b: bv32, c: bv32)
    requires a & c == 0 && b & c == 0
    ensures (a | b) & c == 0
  {
  }

  lemma OrOutside(a: bv32, b: bv32, c: bv32)
    requires (a | b) & c == 0
    ensures a & c == 0 && b & c == 0
  {
  }

  lemma SingleBit(x: bv32, c: bv32)
    requires c & (c - 1) == 0 && x & c != 0
    ensures x & c == c
  {
  }

  lemma BothSingle(a: bv32, b: bv32, c: bv32)
    requires c & (c - 1) == 0 && (a & b) & c != 0 && a | b == c
    ensures a == c && b == c
  {
  }

  lemma SameSingle(x: bv32, c: bv32)
    requires x & (x - 1) == 0 && c & (c - 1) == 0 && x & c != 0
    ensures x == c
  {
  }

  lemma BitInBoth(a: bv32, b: bv32, c: bv32)
    requires c & (c - 1) == 0 && a & c != 0 && b & c != 0
    ensures (a & b) & c != 0
  {
  }

  lemma BitOfBoth(a: bv32, b: bv32, c: bv32)
    requires (a & b) & c != 0
    ensures a & c != 0 && b & c != 0
  {
  }

  lemma OtherBitsMasked(row: bv32, mask: bv32, c: bv32)
    requires mask & c == 0
    ensures (row & !mask) & c == row & c
  {
  }

  lemma BitsMasked(row: bv32, mask: bv32, c: bv32)
    requires mask & c == c
    ensures (row & !mask) & c == 0
  {
  }

  lemma EqualBitsWin(last: bv32, pre: bv32, cur: bv32, c: bv32)
    requires (pre ^ cur) & c == 0
    ensures (((!last & (pre & cur)) | (last & (pre | cur))) ^ cur) & c == 0
  {
  }

  lemma UnequalBitsKeep(last: bv32, pre: bv32, cur: bv32, c: bv32)
    requires (pre ^ cur) & c == c
    ensures (((!last & (pre & cur)) | (last & (pre | cur))) ^ last) & c == 0
  {
  }

  lemma EqualBitsChain(x: bv32, y: bv32, z: bv32, c: bv32)
    requires (x ^ y) & c == 0 && (y ^ z) & c == 0
    ensures (x ^ z) & c == 0
  {
  }
}
