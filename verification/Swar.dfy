/** Classifying eight bytes at once in one machine word. */
module Swar {
  import opened Bytes

  const SWAR_LO: bv64 := 0x0101_0101_0101_0101
  const SWAR_HI: bv64 := 0x8080_8080_8080_8080

  /** Some lane holds a byte outside 0x20..0x7E. */
  function HasOutsidePrintable(x: bv64): bool {
    var less := ((x - SWAR_LO * 0x20) & !x) & SWAR_HI;
    var more := ((x + SWAR_LO * (127 - 0x7E)) | x) & SWAR_HI;
    less | more != 0
  }

  predicate InRange(lane: bv64) {
    0x20 <= lane <= 0x7E
  }

  /** The filter is exact in both directions, for every word: despite borrows and carries it
      flags a word if and only if some lane is outside the range. */
  lemma FilterExact(x: bv64)
    ensures !HasOutsidePrintable(x) <==>
            && InRange(x & 0xFF) && InRange((x >> 8) & 0xFF) && InRange((x >> 16) & 0xFF) && InRange((x >> 24) & 0xFF)
            && InRange((x >> 32) & 0xFF) && InRange((x >> 40) & 0xFF)
            && InRange((x >> 48) & 0xFF) && InRange((x >> 56) & 0xFF)
  {
  }

  /** A word whose upper six lanes are zero is always flagged, so a sweep over the lower two
      alone exercises no clean word. */
  lemma PairSweepIsAlwaysFlagged(x: bv64)
    requires x <= 0xFFFF
    ensures HasOutsidePrintable(x)
  {
  }

  /** Eight octets as a little-endian word. */
  function FromLeBytes(w0: bv8, w1: bv8, w2: bv8, w3: bv8, w4: bv8, w5: bv8, w6: bv8, w7: bv8): bv64 {
    (w0 as bv64) | ((w1 as bv64) << 8) | ((w2 as bv64) << 16) | ((w3 as bv64) << 24)
    | ((w4 as bv64) << 32) | ((w5 as bv64) << 40) | ((w6 as bv64) << 48) | ((w7 as bv64) << 56)
  }

  predicate Printable(w: bv8) {
    0x20 <= w <= 0x7E
  }

  /** The test on a word is the test on the eight octets it was loaded from. */
  lemma WordTest(w0: bv8, w1: bv8, w2: bv8, w3: bv8, w4: bv8, w5: bv8, w6: bv8, w7: bv8)
    ensures !HasOutsidePrintable(FromLeBytes(w0, w1, w2, w3, w4, w5, w6, w7)) <==>
            && Printable(w0) && Printable(w1) && Printable(w2) && Printable(w3)
            && Printable(w4) && Printable(w5) && Printable(w6) && Printable(w7)
  {
  }

  method Octet(b: byte) returns (w: bv8)
    ensures Printable(w) <==> 0x20 <= b <= 0x7E
  {
    w := b as bv8;
  }

  /** The word test on eight bytes of input: exactly the test of each of them. */
  method AllPrintable(a: seq<byte>) returns (clean: bool)
    requires |a| == 8
    ensures clean <==> forall i :: 0 <= i < 8 ==> 0x20 <= a[i] <= 0x7E
  {
    var w0 := Octet(a[0]);
    var w1 := Octet(a[1]);
    var w2 := Octet(a[2]);
    var w3 := Octet(a[3]);
    var w4 := Octet(a[4]);
    var w5 := Octet(a[5]);
    var w6 := Octet(a[6]);
    var w7 := Octet(a[7]);
    clean := !HasOutsidePrintable(FromLeBytes(w0, w1, w2, w3, w4, w5, w6, w7));
    WordTest(w0, w1, w2, w3, w4, w5, w6, w7);
  }
}
