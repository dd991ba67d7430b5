/** The two table-driven checksums, against division bit by bit. */
module Crc {

  type octet = b: bv32 | b <= 0xFF

  // ----- words, with the operations named so that proofs can leave the bits alone

  function Half(r: bv32): bv32 { r >> 1 }

  predicate Odd(r: bv32) { r & 1 == 1 }

  function Xor(a: bv32, b: bv32): bv32 { a ^ b }

  function LowByte(r: bv32): octet { r & 0xFF }

  function HighBytes(r: bv32): bv32 { r >> 8 }

  lemma XorBits(a: bv32, b: bv32)
    ensures Half(Xor(a, b)) == Xor(Half(a), Half(b))
    ensures Odd(Xor(a, b)) <==> Odd(a) != Odd(b)
  {
  }

  lemma XorMoves(a: bv32, b: bv32, c: bv32)
    ensures Xor(Xor(a, b), c) == Xor(Xor(a, c), b) == Xor(a, Xor(b, c))
    ensures Xor(a, b) == Xor(b, a)
  {
  }

  lemma XorCancels(a: bv32, b: bv32)
    ensures Xor(a, 0) == a && Xor(a, a) == 0 && Xor(Xor(a, b), b) == a
    ensures Xor(a, b) == 0 <==> a == b
  {
  }

  lemma LowBit()
    ensures Odd(1) && Half(1) == 0 && !Odd(0) && Half(0) == 0
  {
  }

  // ----- the division, least significant bit first

  /** One step of the reflected shift register. */
  function Shift(poly: bv32, r: bv32): bv32 {
    if Odd(r) then Xor(Half(r), poly) else Half(r)
  }

  lemma ShiftIsLinear(poly: bv32, a: bv32, b: bv32)
    ensures Shift(poly, Xor(a, b)) == Xor(Shift(poly, a), Shift(poly, b))
  {
    hide Xor, Odd, Half;
    XorBits(a, b);
    XorMoves(Half(a), Half(b), poly);
    XorMoves(Half(a), poly, Half(b));
    XorMoves(Xor(Half(a), poly), Half(b), poly);
    XorCancels(Xor(Half(a), Half(b)), poly);
  }

  function BitValue(bit: bool): bv32 { if bit then 1 else 0 }

  /** The register after the bits have gone through it one by one. */
  function Divide(poly: bv32, r: bv32, bits: seq<bool>): bv32
    decreases |bits|
  {
    if bits == [] then r else Divide(poly, Shift(poly, Xor(r, BitValue(bits[0]))), bits[1..])
  }

  /** The n low bits of a value, the lowest first. */
  function LowBits(b: bv32, n: nat): (r: seq<bool>)
    ensures |r| == n
  {
    if n == 0 then [] else [Odd(b)] + LowBits(Half(b), n - 1)
  }

  /** A message as the bits that are sent. */
  function Bits(message: seq<octet>): (r: seq<bool>)
    ensures |r| == 8 * |message|
  {
    if message == [] then []
    else Bits(message[..|message| - 1]) + LowBits(message[|message| - 1], 8)
  }

  lemma {:induction false} DivideJoin(poly: bv32, r: bv32, x: seq<bool>, y: seq<bool>)
    ensures Divide(poly, r, x + y) == Divide(poly, Divide(poly, r, x), y)
    decreases |x|
  {
    hide Shift, BitValue, Xor;
    if x == [] {
      assert x + y == y;
    } else {
      assert (x + y)[1..] == x[1..] + y;
      DivideJoin(poly, Shift(poly, Xor(r, BitValue(x[0]))), x[1..], y);
    }
  }

  lemma {:induction false} BitsJoin(x: seq<octet>, y: seq<octet>)
    ensures Bits(x + y) == Bits(x) + Bits(y)
    decreases |y|
  {
    hide LowBits;
    if y == [] {
      assert x + y == x;
    } else {
      var n := |y| - 1;
      assert (x + y)[..|x + y| - 1] == x + y[..n];
      BitsJoin(x, y[..n]);
    }
  }

  // ----- a byte at a time

  function Shifts(poly: bv32, r: bv32, n: nat): bv32
    decreases n
  {
    if n == 0 then r else Shifts(poly, Shift(poly, r), n - 1)
  }

  function Halves(b: bv32, n: nat): bv32
    decreases n
  {
    if n == 0 then b else Halves(Half(b), n - 1)
  }

  lemma ShiftAbsorbs(poly: bv32, r: bv32, b: bv32)
    ensures Shift(poly, Xor(r, b)) == Xor(Shift(poly, Xor(r, BitValue(Odd(b)))), Half(b))
  {
    hide Xor, Odd, Half;
    var one := BitValue(Odd(b));
    XorBits(r, b);
    XorBits(r, one);
    LowBit();
    XorMoves(Half(r), Half(b), poly);
    XorCancels(Half(r), 0);
  }

  /** Division of the low bits of a value is as many steps of the register with the value added in, up to the
      bits that are still to come. */
  lemma {:induction false} LowBitsDivide(poly: bv32, r: bv32, b: bv32, n: nat)
    ensures Xor(Divide(poly, r, LowBits(b, n)), Halves(b, n)) == Shifts(poly, Xor(r, b), n)
    decreases n
  {
    hide Xor, Odd, Half, Shift, BitValue;
    if n > 0 {
      ShiftAbsorbs(poly, r, b);
      var bits := LowBits(b, n);
      assert bits[0] == Odd(b) && bits[1..] == LowBits(Half(b), n - 1);
      LowBitsDivide(poly, Shift(poly, Xor(r, BitValue(Odd(b)))), Half(b), n - 1);
    }
  }

  lemma {:induction false} ShiftsAreLinear(poly: bv32, a: bv32, b: bv32, n: nat)
    ensures Shifts(poly, Xor(a, b), n) == Xor(Shifts(poly, a, n), Shifts(poly, b, n))
    decreases n
  {
    hide Xor, Shift;
    if n > 0 {
      ShiftIsLinear(poly, a, b);
      ShiftsAreLinear(poly, Shift(poly, a), Shift(poly, b), n - 1);
    }
  }

  // ----- the tables

  /** What the register makes of one byte. */
  ghost function OneByte(poly: bv32, i: octet): bv32 {
    Divide(poly, 0, Bits([i]))
  }

  lemma OneByteIsShifts(poly: bv32, r: bv32, i: octet)
    ensures OneByte(poly, i) == Shifts(poly, i, 8)
    ensures Divide(poly, r, LowBits(i, 8)) == Shifts(poly, Xor(r, i), 8)
  {
    hide Half, Xor, Odd, BitValue, Shift;
    assert [i][..0] == [] && Bits([i]) == LowBits(i, 8);
    LowBitsDivide(poly, 0, i, 8);
    LowBitsDivide(poly, r, i, 8);
    OctetHalves(i);
    XorCancels(Divide(poly, 0, LowBits(i, 8)), 0);
    XorCancels(Divide(poly, r, LowBits(i, 8)), 0);
    XorCancels(i, 0);
    XorMoves(i, 0, 0);
  }

  lemma OctetHalves(b: octet)
    ensures Halves(b, 8) == 0
  {
    var b4 := Half(Half(Half(Half(b))));
    assert Halves(b, 8) == Halves(b4, 4);
    assert Halves(b4, 4) == Half(Half(Half(Half(b4))));
  }

  /** The register after eight steps from each power of two. */
  ghost predicate IsBasis(poly: bv32, t1: bv32, t2: bv32, t4: bv32, t8: bv32, t16: bv32, t32: bv32, t64: bv32,
                          t128: bv32) {
    && t128 == poly && t64 == Shift(poly, t128) && t32 == Shift(poly, t64) && t16 == Shift(poly, t32)
    && t8 == Shift(poly, t16) && t4 == Shift(poly, t8) && t2 == Shift(poly, t4) && t1 == Shift(poly, t2)
  }

  lemma BasisSteps(poly: bv32, t1: bv32, t2: bv32, t4: bv32, t8: bv32, t16: bv32, t32: bv32, t64: bv32, t128: bv32)
    requires IsBasis(poly, t1, t2, t4, t8, t16, t32, t64, t128)
    ensures Shifts(poly, 1, 8) == t1 && Shifts(poly, 2, 8) == t2 && Shifts(poly, 4, 8) == t4
    ensures Shifts(poly, 8, 8) == t8 && Shifts(poly, 0x10, 8) == t16 && Shifts(poly, 0x20, 8) == t32
    ensures Shifts(poly, 0x40, 8) == t64 && Shifts(poly, 0x80, 8) == t128
    ensures Shifts(poly, 0, 8) == 0
  {
    PowerShifts(poly);
    hide Shift;
    assert Shifts(poly, t32, 5) == Shifts(poly, t4, 2) == t1;
  }

  lemma PowerShifts(poly: bv32)
    ensures Shift(poly, 0) == 0 && Shift(poly, 1) == poly && Shift(poly, 2) == 1 && Shift(poly, 4) == 2
    ensures Shift(poly, 8) == 4 && Shift(poly, 0x10) == 8 && Shift(poly, 0x20) == 0x10
    ensures Shift(poly, 0x40) == 0x20 && Shift(poly, 0x80) == 0x40
  {
  }

  /** t if the bit k of x is set. */
  function Chosen(x: bv32, k: bv32, t: bv32): bv32 {
    if x & k != 0 then t else 0
  }

  /** The value of a combination of powers of two, in the two parts of a table index. */
  function Low(x: bv32, t1: bv32, t2: bv32, t4: bv32): bv32 {
    Xor(Xor(Chosen(x, 1, t1), Chosen(x, 2, t2)), Chosen(x, 4, t4))
  }

  function High(x: bv32, t8: bv32, t16: bv32, t32: bv32, t64: bv32, t128: bv32): bv32 {
    Xor(Xor(Xor(Xor(Chosen(x, 8, t8), Chosen(x, 0x10, t16)), Chosen(x, 0x20, t32)), Chosen(x, 0x40, t64)),
        Chosen(x, 0x80, t128))
  }

  lemma IndexBits(i: octet, j: bv32, x: bv32)
    requires j == i & 7 && x == i & 0xF8
    ensures i == Xor(x, j)
    ensures j == Xor(Xor(j & 1, j & 2), j & 4)
    ensures x == Xor(Xor(Xor(Xor(x & 8, x & 0x10), x & 0x20), x & 0x40), x & 0x80)
  {
  }

  lemma ChosenSteps(poly: bv32, x: bv32, k: bv32, t: bv32)
    requires x & k == 0 || x & k == k
    requires Shifts(poly, k, 8) == t && Shifts(poly, 0, 8) == 0
    ensures Shifts(poly, x & k, 8) == Chosen(x, k, t)
  {
    hide Shifts;
  }

  lemma Combination(poly: bv32, i: octet, j: bv32, x: bv32, t1: bv32, t2: bv32, t4: bv32, t8: bv32, t16: bv32,
                    t32: bv32, t64: bv32, t128: bv32)
    requires j == i & 7 && x == i & 0xF8
    requires IsBasis(poly, t1, t2, t4, t8, t16, t32, t64, t128)
    ensures OneByte(poly, i) == Xor(High(x, t8, t16, t32, t64, t128), Low(j, t1, t2, t4))
  {
    hide OneByte, Shifts, IsBasis, Xor, Chosen;
    BasisSteps(poly, t1, t2, t4, t8, t16, t32, t64, t128);
    OneByteIsShifts(poly, 0, i);
    IndexBits(i, j, x);
    ShiftsAreLinear(poly, x, j, 8);
    LowSteps(poly, j, t1, t2, t4);
    HighSteps(poly, x, t8, t16, t32, t64, t128);
  }

  lemma LowSteps(poly: bv32, j: bv32, t1: bv32, t2: bv32, t4: bv32)
    requires j == Xor(Xor(j & 1, j & 2), j & 4)
    requires Shifts(poly, 1, 8) == t1 && Shifts(poly, 2, 8) == t2 && Shifts(poly, 4, 8) == t4
    requires Shifts(poly, 0, 8) == 0
    ensures Shifts(poly, j, 8) == Low(j, t1, t2, t4)
  {
    hide Shifts, Xor, Chosen;
    ShiftsAreLinear(poly, j & 1, j & 2, 8);
    ShiftsAreLinear(poly, Xor(j & 1, j & 2), j & 4, 8);
    ChosenSteps(poly, j, 1, t1);
    ChosenSteps(poly, j, 2, t2);
    ChosenSteps(poly, j, 4, t4);
  }

  lemma HighSteps(poly: bv32, x: bv32, t8: bv32, t16: bv32, t32: bv32, t64: bv32, t128: bv32)
    requires x == Xor(Xor(Xor(Xor(x & 8, x & 0x10), x & 0x20), x & 0x40), x & 0x80)
    requires Shifts(poly, 8, 8) == t8 && Shifts(poly, 0x10, 8) == t16 && Shifts(poly, 0x20, 8) == t32
    requires Shifts(poly, 0x40, 8) == t64 && Shifts(poly, 0x80, 8) == t128
    requires Shifts(poly, 0, 8) == 0
    ensures Shifts(poly, x, 8) == High(x, t8, t16, t32, t64, t128)
  {
    hide Shifts, Xor, Chosen;
    ShiftsAreLinear(poly, x & 8, x & 0x10, 8);
    ShiftsAreLinear(poly, Xor(x & 8, x & 0x10), x & 0x20, 8);
    ShiftsAreLinear(poly, Xor(Xor(x & 8, x & 0x10), x & 0x20), x & 0x40, 8);
    ShiftsAreLinear(poly, Xor(Xor(Xor(x & 8, x & 0x10), x & 0x20), x & 0x40), x & 0x80, 8);
    ChosenSteps(poly, x, 8, t8);
    ChosenSteps(poly, x, 0x10, t16);
    ChosenSteps(poly, x, 0x20, t32);
    ChosenSteps(poly, x, 0x40, t64);
    ChosenSteps(poly, x, 0x80, t128);
  }

  /** What makes eight entries a row of the table: they combine the basis. */
  predicate IsRow(x: bv32, a0: bv32, a1: bv32, a2: bv32, a3: bv32, a4: bv32, a5: bv32, a6: bv32, a7: bv32,
                  t1: bv32, t2: bv32, t4: bv32, t8: bv32, t16: bv32, t32: bv32, t64: bv32, t128: bv32) {
    && a0 == High(x, t8, t16, t32, t64, t128)
    && a1 == Xor(a0, t1) && a2 == Xor(a0, t2) && a3 == Xor(a1, t2) && a4 == Xor(a0, t4) && a5 == Xor(a1, t4)
    && a6 == Xor(a2, t4) && a7 == Xor(a3, t4)
  }

  function Pick(j: bv32, a0: bv32, a1: bv32, a2: bv32, a3: bv32, a4: bv32, a5: bv32, a6: bv32, a7: bv32): bv32 {
    if j == 0 then a0 else if j == 1 then a1 else if j == 2 then a2 else if j == 3 then a3
    else if j == 4 then a4 else if j == 5 then a5 else if j == 6 then a6 else a7
  }

  lemma RowCombines(j: bv32, x: bv32, a0: bv32, a1: bv32, a2: bv32, a3: bv32, a4: bv32, a5: bv32, a6: bv32, a7: bv32,
                    t1: bv32, t2: bv32, t4: bv32, t8: bv32, t16: bv32, t32: bv32, t64: bv32, t128: bv32)
    requires j <= 7 && IsRow(x, a0, a1, a2, a3, a4, a5, a6, a7, t1, t2, t4, t8, t16, t32, t64, t128)
    ensures Pick(j, a0, a1, a2, a3, a4, a5, a6, a7) == Xor(High(x, t8, t16, t32, t64, t128), Low(j, t1, t2, t4))
  {
    hide High, Low, Chosen, Xor;
    UpToSeven(j);
    LowEntries(t1, t2, t4);
    XorCancels(a0, 0);
    XorMoves(a0, t1, t2);
    XorMoves(a0, t1, t4);
    XorMoves(a0, t2, t4);
    XorMoves(a0, Xor(t1, t2), t4);
  }

  lemma UpToSeven(j: bv32)
    requires j <= 7
    ensures j == 0 || j == 1 || j == 2 || j == 3 || j == 4 || j == 5 || j == 6 || j == 7
  {
  }

  lemma LowEntries(t1: bv32, t2: bv32, t4: bv32)
    ensures Low(0, t1, t2, t4) == 0 && Low(1, t1, t2, t4) == t1 && Low(2, t1, t2, t4) == t2
    ensures Low(3, t1, t2, t4) == Xor(t1, t2) && Low(4, t1, t2, t4) == t4 && Low(5, t1, t2, t4) == Xor(t1, t4)
    ensures Low(6, t1, t2, t4) == Xor(t2, t4) && Low(7, t1, t2, t4) == Xor(Xor(t1, t2), t4)
  {
    hide Xor;
    XorCancels(0, 0);
    XorCancels(t1, 0);
    XorCancels(t2, 0);
    XorCancels(Xor(t1, t2), 0);
    XorMoves(0, t2, 0);
    XorMoves(0, t4, 0);
    XorCancels(t4, 0);
  }

  lemma BlockOf(i: octet, x: bv32)
    requires x & 7 == 0 && x <= i <= x + 7
    ensures i & 0xF8 == x && i & 7 <= 7
  {
  }

  /** Eight entries of the 16-bit table, of which i selects one. */
  method Row16(i: octet, x: bv32, a0: bv32, a1: bv32, a2: bv32, a3: bv32, a4: bv32, a5: bv32, a6: bv32, a7: bv32)
    returns (r: bv32)
    requires x & 7 == 0 && x <= i <= x + 7
    requires IsRow(x, a0, a1, a2, a3, a4, a5, a6, a7,
        0xC0C1, 0xC181, 0xC301, 0xC601, 0xCC01, 0xD801, 0xF001, 0xA001)
    ensures r == OneByte(0xA001, i)
  {
    hide OneByte, IsRow, High, Low, Xor;
    Basis16();
    BlockOf(i, x);
    Combination(0xA001, i, i & 7, x, 0xC0C1, 0xC181, 0xC301, 0xC601, 0xCC01, 0xD801, 0xF001, 0xA001);
    RowCombines(i & 7, x, a0, a1, a2, a3, a4, a5, a6, a7,
        0xC0C1, 0xC181, 0xC301, 0xC601, 0xCC01, 0xD801, 0xF001, 0xA001);
    r := Pick(i & 7, a0, a1, a2, a3, a4, a5, a6, a7);
  }

  lemma Basis16()
    ensures IsBasis(0xA001, 0xC0C1, 0xC181, 0xC301, 0xC601, 0xCC01, 0xD801, 0xF001, 0xA001)
  {
  }

  method Lut16(i: octet) returns (r: bv32)
    ensures r == OneByte(0xA001, i)
  {
    if i <= 0x7F { r := Lut16Front(i); } else { r := Lut16Back(i); }
  }

  method Lut16Front(i: octet) returns (r: bv32)
    requires i <= 0x7F
    ensures r == OneByte(0xA001, i)
  {
    hide OneByte;
    if i <= 0x07 { r := Row16(i, 0x00, 0x0000, 0xC0C1, 0xC181, 0x0140, 0xC301, 0x03C0, 0x0280, 0xC241); }
    else if i <= 0x0F { r := Row16(i, 0x08, 0xC601, 0x06C0, 0x0780, 0xC741, 0x0500, 0xC5C1, 0xC481, 0x0440); }
    else if i <= 0x17 { r := Row16(i, 0x10, 0xCC01, 0x0CC0, 0x0D80, 0xCD41, 0x0F00, 0xCFC1, 0xCE81, 0x0E40); }
    else if i <= 0x1F { r := Row16(i, 0x18, 0x0A00, 0xCAC1, 0xCB81, 0x0B40, 0xC901, 0x09C0, 0x0880, 0xC841); }
    else if i <= 0x27 { r := Row16(i, 0x20, 0xD801, 0x18C0, 0x1980, 0xD941, 0x1B00, 0xDBC1, 0xDA81, 0x1A40); }
    else if i <= 0x2F { r := Row16(i, 0x28, 0x1E00, 0xDEC1, 0xDF81, 0x1F40, 0xDD01, 0x1DC0, 0x1C80, 0xDC41); }
    else if i <= 0x37 { r := Row16(i, 0x30, 0x1400, 0xD4C1, 0xD581, 0x1540, 0xD701, 0x17C0, 0x1680, 0xD641); }
    else if i <= 0x3F { r := Row16(i, 0x38, 0xD201, 0x12C0, 0x1380, 0xD341, 0x1100, 0xD1C1, 0xD081, 0x1040); }
    else if i <= 0x47 { r := Row16(i, 0x40, 0xF001, 0x30C0, 0x3180, 0xF141, 0x3300, 0xF3C1, 0xF281, 0x3240); }
    else if i <= 0x4F { r := Row16(i, 0x48, 0x3600, 0xF6C1, 0xF781, 0x3740, 0xF501, 0x35C0, 0x3480, 0xF441); }
    else if i <= 0x57 { r := Row16(i, 0x50, 0x3C00, 0xFCC1, 0xFD81, 0x3D40, 0xFF01, 0x3FC0, 0x3E80, 0xFE41); }
    else if i <= 0x5F { r := Row16(i, 0x58, 0xFA01, 0x3AC0, 0x3B80, 0xFB41, 0x3900, 0xF9C1, 0xF881, 0x3840); }
    else if i <= 0x67 { r := Row16(i, 0x60, 0x2800, 0xE8C1, 0xE981, 0x2940, 0xEB01, 0x2BC0, 0x2A80, 0xEA41); }
    else if i <= 0x6F { r := Row16(i, 0x68, 0xEE01, 0x2EC0, 0x2F80, 0xEF41, 0x2D00, 0xEDC1, 0xEC81, 0x2C40); }
    else if i <= 0x77 { r := Row16(i, 0x70, 0xE401, 0x24C0, 0x2580, 0xE541, 0x2700, 0xE7C1, 0xE681, 0x2640); }
    else { r := Row16(i, 0x78, 0x2200, 0xE2C1, 0xE381, 0x2340, 0xE101, 0x21C0, 0x2080, 0xE041); }
  }

  method Lut16Back(i: octet) returns (r: bv32)
    requires 0x80 <= i
    ensures r == OneByte(0xA001, i)
  {
    hide OneByte;
    if i <= 0x87 { r := Row16(i, 0x80, 0xA001, 0x60C0, 0x6180, 0xA141, 0x6300, 0xA3C1, 0xA281, 0x6240); }
    else if i <= 0x8F { r := Row16(i, 0x88, 0x6600, 0xA6C1, 0xA781, 0x6740, 0xA501, 0x65C0, 0x6480, 0xA441); }
    else if i <= 0x97 { r := Row16(i, 0x90, 0x6C00, 0xACC1, 0xAD81, 0x6D40, 0xAF01, 0x6FC0, 0x6E80, 0xAE41); }
    else if i <= 0x9F { r := Row16(i, 0x98, 0xAA01, 0x6AC0, 0x6B80, 0xAB41, 0x6900, 0xA9C1, 0xA881, 0x6840); }
    else if i <= 0xA7 { r := Row16(i, 0xA0, 0x7800, 0xB8C1, 0xB981, 0x7940, 0xBB01, 0x7BC0, 0x7A80, 0xBA41); }
    else if i <= 0xAF { r := Row16(i, 0xA8, 0xBE01, 0x7EC0, 0x7F80, 0xBF41, 0x7D00, 0xBDC1, 0xBC81, 0x7C40); }
    else if i <= 0xB7 { r := Row16(i, 0xB0, 0xB401, 0x74C0, 0x7580, 0xB541, 0x7700, 0xB7C1, 0xB681, 0x7640); }
    else if i <= 0xBF { r := Row16(i, 0xB8, 0x7200, 0xB2C1, 0xB381, 0x7340, 0xB101, 0x71C0, 0x7080, 0xB041); }
    else if i <= 0xC7 { r := Row16(i, 0xC0, 0x5000, 0x90C1, 0x9181, 0x5140, 0x9301, 0x53C0, 0x5280, 0x9241); }
    else if i <= 0xCF { r := Row16(i, 0xC8, 0x9601, 0x56C0, 0x5780, 0x9741, 0x5500, 0x95C1, 0x9481, 0x5440); }
    else if i <= 0xD7 { r := Row16(i, 0xD0, 0x9C01, 0x5CC0, 0x5D80, 0x9D41, 0x5F00, 0x9FC1, 0x9E81, 0x5E40); }
    else if i <= 0xDF { r := Row16(i, 0xD8, 0x5A00, 0x9AC1, 0x9B81, 0x5B40, 0x9901, 0x59C0, 0x5880, 0x9841); }
    else if i <= 0xE7 { r := Row16(i, 0xE0, 0x8801, 0x48C0, 0x4980, 0x8941, 0x4B00, 0x8BC1, 0x8A81, 0x4A40); }
    else if i <= 0xEF { r := Row16(i, 0xE8, 0x4E00, 0x8EC1, 0x8F81, 0x4F40, 0x8D01, 0x4DC0, 0x4C80, 0x8C41); }
    else if i <= 0xF7 { r := Row16(i, 0xF0, 0x4400, 0x84C1, 0x8581, 0x4540, 0x8701, 0x47C0, 0x4680, 0x8641); }
    else { r := Row16(i, 0xF8, 0x8201, 0x42C0, 0x4380, 0x8341, 0x4100, 0x81C1, 0x8081, 0x4040); }
  }

  /** Eight entries of the 32-bit table, of which i selects one. */
  method Row32(i: octet, x: bv32, a0: bv32, a1: bv32, a2: bv32, a3: bv32, a4: bv32, a5: bv32, a6: bv32, a7: bv32)
    returns (r: bv32)
    requires x & 7 == 0 && x <= i <= x + 7
    requires IsRow(x, a0, a1, a2, a3, a4, a5, a6, a7,
        0x77073096, 0xEE0E612C, 0x076DC419, 0x0EDB8832, 0x1DB71064, 0x3B6E20C8, 0x76DC4190, 0xEDB88320)
    ensures r == OneByte(0xEDB88320, i)
  {
    hide OneByte, IsRow, High, Low, Xor;
    Basis32();
    BlockOf(i, x);
    Combination(0xEDB88320, i, i & 7, x,
        0x77073096, 0xEE0E612C, 0x076DC419, 0x0EDB8832, 0x1DB71064, 0x3B6E20C8, 0x76DC4190, 0xEDB88320);
    RowCombines(i & 7, x, a0, a1, a2, a3, a4, a5, a6, a7,
        0x77073096, 0xEE0E612C, 0x076DC419, 0x0EDB8832, 0x1DB71064, 0x3B6E20C8, 0x76DC4190, 0xEDB88320);
    r := Pick(i & 7, a0, a1, a2, a3, a4, a5, a6, a7);
  }

  lemma Basis32()
    ensures IsBasis(0xEDB88320,
        0x77073096, 0xEE0E612C, 0x076DC419, 0x0EDB8832, 0x1DB71064, 0x3B6E20C8, 0x76DC4190, 0xEDB88320)
  {
  }

  method Lut32(i: octet) returns (r: bv32)
    ensures r == OneByte(0xEDB88320, i)
  {
    if i <= 0x7F { r := Lut32Front(i); } else { r := Lut32Back(i); }
  }

  method Lut32Front(i: octet) returns (r: bv32)
    requires i <= 0x7F
    ensures r == OneByte(0xEDB88320, i)
  {
    hide OneByte;
    if i <= 0x07 {
      r := Row32(i, 0x00, 0x00000000, 0x77073096, 0xEE0E612C, 0x990951BA,
                 0x076DC419, 0x706AF48F, 0xE963A535, 0x9E6495A3);
    } else if i <= 0x0F {
      r := Row32(i, 0x08, 0x0EDB8832, 0x79DCB8A4, 0xE0D5E91E, 0x97D2D988,
                 0x09B64C2B, 0x7EB17CBD, 0xE7B82D07, 0x90BF1D91);
    } else if i <= 0x17 {
      r := Row32(i, 0x10, 0x1DB71064, 0x6AB020F2, 0xF3B97148, 0x84BE41DE,
                 0x1ADAD47D, 0x6DDDE4EB, 0xF4D4B551, 0x83D385C7);
    } else if i <= 0x1F {
      r := Row32(i, 0x18, 0x136C9856, 0x646BA8C0, 0xFD62F97A, 0x8A65C9EC,
                 0x14015C4F, 0x63066CD9, 0xFA0F3D63, 0x8D080DF5);
    } else if i <= 0x27 {
      r := Row32(i, 0x20, 0x3B6E20C8, 0x4C69105E, 0xD56041E4, 0xA2677172,
                 0x3C03E4D1, 0x4B04D447, 0xD20D85FD, 0xA50AB56B);
    } else if i <= 0x2F {
      r := Row32(i, 0x28, 0x35B5A8FA, 0x42B2986C, 0xDBBBC9D6, 0xACBCF940,
                 0x32D86CE3, 0x45DF5C75, 0xDCD60DCF, 0xABD13D59);
    } else if i <= 0x37 {
      r := Row32(i, 0x30, 0x26D930AC, 0x51DE003A, 0xC8D75180, 0xBFD06116,
                 0x21B4F4B5, 0x56B3C423, 0xCFBA9599, 0xB8BDA50F);
    } else if i <= 0x3F {
      r := Row32(i, 0x38, 0x2802B89E, 0x5F058808, 0xC60CD9B2, 0xB10BE924,
                 0x2F6F7C87, 0x58684C11, 0xC1611DAB, 0xB6662D3D);
    } else if i <= 0x47 {
      r := Row32(i, 0x40, 0x76DC4190, 0x01DB7106, 0x98D220BC, 0xEFD5102A,
                 0x71B18589, 0x06B6B51F, 0x9FBFE4A5, 0xE8B8D433);
    } else if i <= 0x4F {
      r := Row32(i, 0x48, 0x7807C9A2, 0x0F00F934, 0x9609A88E, 0xE10E9818,
                 0x7F6A0DBB, 0x086D3D2D, 0x91646C97, 0xE6635C01);
    } else if i <= 0x57 {
      r := Row32(i, 0x50, 0x6B6B51F4, 0x1C6C6162, 0x856530D8, 0xF262004E,
                 0x6C0695ED, 0x1B01A57B, 0x8208F4C1, 0xF50FC457);
    } else if i <= 0x5F {
      r := Row32(i, 0x58, 0x65B0D9C6, 0x12B7E950, 0x8BBEB8EA, 0xFCB9887C,
                 0x62DD1DDF, 0x15DA2D49, 0x8CD37CF3, 0xFBD44C65);
    } else if i <= 0x67 {
      r := Row32(i, 0x60, 0x4DB26158, 0x3AB551CE, 0xA3BC0074, 0xD4BB30E2,
                 0x4ADFA541, 0x3DD895D7, 0xA4D1C46D, 0xD3D6F4FB);
    } else if i <= 0x6F {
      r := Row32(i, 0x68, 0x4369E96A, 0x346ED9FC, 0xAD678846, 0xDA60B8D0,
                 0x44042D73, 0x33031DE5, 0xAA0A4C5F, 0xDD0D7CC9);
    } else if i <= 0x77 {
      r := Row32(i, 0x70, 0x5005713C, 0x270241AA, 0xBE0B1010, 0xC90C2086,
                 0x5768B525, 0x206F85B3, 0xB966D409, 0xCE61E49F);
    } else {
      r := Row32(i, 0x78, 0x5EDEF90E, 0x29D9C998, 0xB0D09822, 0xC7D7A8B4,
                 0x59B33D17, 0x2EB40D81, 0xB7BD5C3B, 0xC0BA6CAD);
    }
  }

  method Lut32Back(i: octet) returns (r: bv32)
    requires 0x80 <= i
    ensures r == OneByte(0xEDB88320, i)
  {
    hide OneByte;
    if i <= 0x87 {
      r := Row32(i, 0x80, 0xEDB88320, 0x9ABFB3B6, 0x03B6E20C, 0x74B1D29A,
                 0xEAD54739, 0x9DD277AF, 0x04DB2615, 0x73DC1683);
    } else if i <= 0x8F {
      r := Row32(i, 0x88, 0xE3630B12, 0x94643B84, 0x0D6D6A3E, 0x7A6A5AA8,
                 0xE40ECF0B, 0x9309FF9D, 0x0A00AE27, 0x7D079EB1);
    } else if i <= 0x97 {
      r := Row32(i, 0x90, 0xF00F9344, 0x8708A3D2, 0x1E01F268, 0x6906C2FE,
                 0xF762575D, 0x806567CB, 0x196C3671, 0x6E6B06E7);
    } else if i <= 0x9F {
      r := Row32(i, 0x98, 0xFED41B76, 0x89D32BE0, 0x10DA7A5A, 0x67DD4ACC,
                 0xF9B9DF6F, 0x8EBEEFF9, 0x17B7BE43, 0x60B08ED5);
    } else if i <= 0xA7 {
      r := Row32(i, 0xA0, 0xD6D6A3E8, 0xA1D1937E, 0x38D8C2C4, 0x4FDFF252,
                 0xD1BB67F1, 0xA6BC5767, 0x3FB506DD, 0x48B2364B);
    } else if i <= 0xAF {
      r := Row32(i, 0xA8, 0xD80D2BDA, 0xAF0A1B4C, 0x36034AF6, 0x41047A60,
                 0xDF60EFC3, 0xA867DF55, 0x316E8EEF, 0x4669BE79);
    } else if i <= 0xB7 {
      r := Row32(i, 0xB0, 0xCB61B38C, 0xBC66831A, 0x256FD2A0, 0x5268E236,
                 0xCC0C7795, 0xBB0B4703, 0x220216B9, 0x5505262F);
    } else if i <= 0xBF {
      r := Row32(i, 0xB8, 0xC5BA3BBE, 0xB2BD0B28, 0x2BB45A92, 0x5CB36A04,
                 0xC2D7FFA7, 0xB5D0CF31, 0x2CD99E8B, 0x5BDEAE1D);
    } else if i <= 0xC7 {
      r := Row32(i, 0xC0, 0x9B64C2B0, 0xEC63F226, 0x756AA39C, 0x026D930A,
                 0x9C0906A9, 0xEB0E363F, 0x72076785, 0x05005713);
    } else if i <= 0xCF {
      r := Row32(i, 0xC8, 0x95BF4A82, 0xE2B87A14, 0x7BB12BAE, 0x0CB61B38,
                 0x92D28E9B, 0xE5D5BE0D, 0x7CDCEFB7, 0x0BDBDF21);
    } else if i <= 0xD7 {
      r := Row32(i, 0xD0, 0x86D3D2D4, 0xF1D4E242, 0x68DDB3F8, 0x1FDA836E,
                 0x81BE16CD, 0xF6B9265B, 0x6FB077E1, 0x18B74777);
    } else if i <= 0xDF {
      r := Row32(i, 0xD8, 0x88085AE6, 0xFF0F6A70, 0x66063BCA, 0x11010B5C,
                 0x8F659EFF, 0xF862AE69, 0x616BFFD3, 0x166CCF45);
    } else if i <= 0xE7 {
      r := Row32(i, 0xE0, 0xA00AE278, 0xD70DD2EE, 0x4E048354, 0x3903B3C2,
                 0xA7672661, 0xD06016F7, 0x4969474D, 0x3E6E77DB);
    } else if i <= 0xEF {
      r := Row32(i, 0xE8, 0xAED16A4A, 0xD9D65ADC, 0x40DF0B66, 0x37D83BF0,
                 0xA9BCAE53, 0xDEBB9EC5, 0x47B2CF7F, 0x30B5FFE9);
    } else if i <= 0xF7 {
      r := Row32(i, 0xF0, 0xBDBDF21C, 0xCABAC28A, 0x53B39330, 0x24B4A3A6,
                 0xBAD03605, 0xCDD70693, 0x54DE5729, 0x23D967BF);
    } else {
      r := Row32(i, 0xF8, 0xB3667A2E, 0xC4614AB8, 0x5D681B02, 0x2A6F2B94,
                 0xB40BBE37, 0xC30C8EA1, 0x5A05DF1B, 0x2D02EF8D);
    }
  }

  // ----- the checksums

  type word16 = r: bv32 | r <= 0xFFFF

  /** What the two functions compute: the register after all bits of the message; the second complements it. */
  ghost function Crc16Of(data: seq<octet>, init: word16): bv32 {
    Divide(0xA001, init, Bits(data))
  }

  ghost function Crc32Of(data: seq<octet>, init: bv32): bv32 {
    !Divide(0xEDB88320, init, Bits(data))
  }

  /** A register whose low byte is zero only moves down for eight steps. */
  lemma HighBitsFall(poly: bv32, y: bv32)
    requires LowByte(y) == 0
    ensures Shifts(poly, y, 8) == HighBytes(y)
  {
    LowByteEmpty(y);
    hide Odd, Half, LowByte, HighBytes, Xor;
    var y4 := Half(Half(Half(Half(y))));
    assert Shifts(poly, y4, 4) == Half(Half(Half(Half(y4))));
    assert Shifts(poly, y, 8) == Shifts(poly, y4, 4);
  }

  lemma LowByteEmpty(y: bv32)
    requires LowByte(y) == 0
    ensures var y4 := Half(Half(Half(Half(y))));
            !Odd(y) && !Odd(Half(y)) && !Odd(Half(Half(y))) && !Odd(Half(Half(Half(y))))
            && !Odd(y4) && !Odd(Half(y4)) && !Odd(Half(Half(y4))) && !Odd(Half(Half(Half(y4))))
            && Half(Half(Half(Half(y4)))) == HighBytes(y)
  {
    assert Clear(y, 0xFF);
    hide LowByte, Odd, Half, HighBytes, Clear;
    ClearOne(y, 0xFF);
    ClearOne(Half(y), 0x7F);
    ClearOne(Half(Half(y)), 0x3F);
    ClearOne(Half(Half(Half(y))), 0x1F);
    var y4 := Half(Half(Half(Half(y))));
    ClearOne(y4, 0xF);
    ClearOne(Half(y4), 7);
    ClearOne(Half(Half(y4)), 3);
    ClearOne(Half(Half(Half(y4))), 1);
    EightHalves(y);
  }

  predicate Clear(y: bv32, m: bv32) { y & m == 0 }

  lemma ClearOne(y: bv32, m: bv32)
    requires Clear(y, m) && m & 1 == 1
    ensures !Odd(y) && Clear(Half(y), m >> 1)
  {
  }

  lemma EightHalves(y: bv32)
    ensures Half(Half(Half(Half(Half(Half(Half(Half(y)))))))) == HighBytes(y)
  {
  }

  lemma SplitRegister(x: bv32, r: bv32, b: octet)
    requires x == Xor(r, b)
    ensures x == Xor(x & 0xFFFF_FF00, LowByte(x))
    ensures LowByte(x & 0xFFFF_FF00) == 0 && HighBytes(x & 0xFFFF_FF00) == HighBytes(r)
  {
    hide Xor, LowByte, HighBytes;
    SplitLow(x);
    HighOfXor(r, b);
  }

  lemma SplitLow(x: bv32)
    ensures x == Xor(x & 0xFFFF_FF00, LowByte(x))
    ensures LowByte(x & 0xFFFF_FF00) == 0 && HighBytes(x & 0xFFFF_FF00) == HighBytes(x)
  {
  }

  lemma HighOfXor(r: bv32, b: octet)
    ensures HighBytes(Xor(r, b)) == HighBytes(r)
  {
  }

  /** Why the table works: a step on a whole byte is the register moved down a byte plus the entry of its low
      byte with the message byte added in. */
  lemma ByteStep(poly: bv32, r: bv32, b: octet, x: bv32, high: bv32)
    requires x == Xor(r, b) && high == x & 0xFFFF_FF00
    ensures Divide(poly, r, LowBits(b, 8)) == Xor(HighBytes(r), OneByte(poly, LowByte(x)))
  {
    SplitRegister(x, r, b);
    hide *;
    OneByteIsShifts(poly, r, b);
    ShiftsAreLinear(poly, high, LowByte(x), 8);
    HighBitsFall(poly, high);
    OneByteIsShifts(poly, 0, LowByte(x));
  }

  lemma TableStep(poly: bv32, init: bv32, data: seq<octet>, i: nat, r: bv32)
    requires i < |data| && r == Divide(poly, init, Bits(data[..i]))
    ensures Divide(poly, init, Bits(data[..i + 1])) == Xor(HighBytes(r), OneByte(poly, LowByte(Xor(r, data[i]))))
  {
    hide OneByte, Shifts, Xor, Divide, LowByte, HighBytes, LowBits;
    assert data[..i + 1][..i] == data[..i];
    DivideJoin(poly, init, Bits(data[..i]), LowBits(data[i], 8));
    ByteStep(poly, r, data[i], Xor(r, data[i]), Xor(r, data[i]) & 0xFFFF_FF00);
  }

  /** The 16-bit register is truncated at each step, which never loses a bit. */
  method Crc16(data: seq<octet>, init: word16) returns (r: word16)
    ensures r == Crc16Of(data, init)
  {
    hide OneByte, Xor, Divide, Bits, LowByte, HighBytes, Word16;
    r := init;
    EmptyMessage(0xA001, init, data);
    for i := 0 to |data|
      invariant r == Divide(0xA001, init, Bits(data[..i]))
    {
      var v := Lut16(LowByte(Xor(r, data[i])));
      TableStep(0xA001, init, data, i, r);
      StaysNarrow(0xA001, init, Bits(data[..i + 1]));
      Word16Is(Xor(HighBytes(r), v));
      r := Word16(Xor(HighBytes(r), v));
    }
    assert data[..|data|] == data;
  }

  method Crc32(data: seq<octet>, init: bv32) returns (r: bv32)
    ensures r == Crc32Of(data, init)
  {
    hide OneByte, Xor, Divide, Bits, LowByte, HighBytes;
    r := init;
    EmptyMessage(0xEDB88320, init, data);
    for i := 0 to |data|
      invariant r == Divide(0xEDB88320, init, Bits(data[..i]))
    {
      var v := Lut32(LowByte(Xor(r, data[i])));
      TableStep(0xEDB88320, init, data, i, r);
      r := Xor(HighBytes(r), v);
    }
    assert data[..|data|] == data;
    r := !r;
  }

  lemma EmptyMessage(poly: bv32, init: bv32, data: seq<octet>)
    ensures Divide(poly, init, Bits(data[..0])) == init
  {
    assert data[..0] == [];
  }

  function Word16(x: bv32): word16 { x & 0xFFFF }

  lemma Word16Is(x: bv32)
    ensures x <= 0xFFFF ==> Word16(x) == x
  {
  }

  // ----- what the checksums detect

  /** The polynomial has the width of the register. */
  predicate Wide(poly: bv32, top: bv32, full: bv32) {
    || (top == 0x8000 && full == 0xFFFF && top <= poly <= full)
    || (top == 0x8000_0000 && full == 0xFFFF_FFFF && top <= poly)
  }

  predicate AtMost(a: bv32, b: bv32) { a <= b }

  /** The number of bits of a register. */
  function Span(full: bv32): nat { if full == 0xFFFF then 16 else 32 }

  lemma ShiftNarrow(poly: bv32, r: bv32)
    requires poly <= 0xFFFF && r <= 0xFFFF
    ensures Shift(poly, r) <= 0xFFFF
    ensures Xor(r, 0) <= 0xFFFF && Xor(r, 1) <= 0xFFFF
  {
  }

  lemma {:induction false} StaysNarrow(poly: bv32, r: bv32, bits: seq<bool>)
    requires poly <= 0xFFFF && r <= 0xFFFF
    ensures Divide(poly, r, bits) <= 0xFFFF
    decreases |bits|
  {
    hide Shift, Xor;
    if bits != [] {
      var x := Xor(r, BitValue(bits[0]));
      ShiftNarrow(poly, r);
      ShiftNarrow(poly, x);
      StaysNarrow(poly, Shift(poly, x), bits[1..]);
    }
  }

  /** t halves n times without losing a bit. */
  predicate Power(t: bv32, n: nat)
    decreases n
  {
    if n == 0 then t != 0 else !Odd(t) && Power(Half(t), n - 1)
  }

  lemma {:induction false} PowerIsPositive(t: bv32, n: nat)
    requires Power(t, n)
    ensures t != 0
    decreases n
  {
    hide Odd, Half;
    if n > 0 {
      PowerIsPositive(Half(t), n - 1);
      HalfOfZero(t);
    }
  }

  lemma HalfOfZero(t: bv32)
    ensures t == 0 ==> Half(t) == 0
  {
  }

  lemma TopIsPower(poly: bv32, top: bv32, full: bv32)
    requires Wide(poly, top, full)
    ensures Span(full) > 0 && Power(top, Span(full) - 1)
  {
    assert Power(0x80, 7);
    assert Power(0x8000, 15);
    assert Power(0x80_0000, 23);
    assert Power(0x8000_0000, 31);
  }

  /** The difference of two registers goes through the steps as a register of its own, to which the differing
      message bits are added. */
  lemma DifferenceSteps(poly: bv32, r: bv32, r': bv32, x: bool, y: bool)
    ensures Xor(Shift(poly, Xor(r, BitValue(x))), Shift(poly, Xor(r', BitValue(y))))
         == Shift(poly, Xor(Xor(r, r'), BitValue(x != y)))
  {
    hide Xor, Shift;
    var ex, ey := BitValue(x), BitValue(y);
    ShiftIsLinear(poly, Xor(r, ex), Xor(r', ey));
    XorMoves(r, ex, Xor(r', ey));
    XorMoves(ex, r', ey);
    XorMoves(r', ex, ey);
    XorMoves(r, r', Xor(ex, ey));
    XorCancels(ex, 0);
    XorCancels(ey, 0);
    XorMoves(0, ey, 0);
    XorCancels(ex, ey);
  }

  /** A difference of at least t is at least t/2 a step later, whatever bit is added to it. */
  lemma DifferenceStays(poly: bv32, top: bv32, full: bv32, d: bv32, e: bool, t: bv32)
    requires Wide(poly, top, full) && AtMost(d, full) && AtMost(t, d) && AtMost(t, top) && !Odd(t)
    ensures AtMost(Half(t), Shift(poly, Xor(d, BitValue(e)))) && AtMost(Half(t), top)
  {
  }

  lemma NoDifferenceFromNone(poly: bv32, top: bv32, full: bv32, d: bv32)
    requires Wide(poly, top, full) && AtMost(d, full)
    ensures Shift(poly, d) == 0 <==> d == 0
    ensures Shift(poly, 1) == poly
  {
  }

  lemma XorFits(poly: bv32, top: bv32, full: bv32, a: bv32, b: bv32)
    requires Wide(poly, top, full) && AtMost(a, full) && AtMost(b, full)
    ensures AtMost(Xor(a, b), full)
  {
  }

  lemma {:induction false} StaysInside(poly: bv32, top: bv32, full: bv32, r: bv32, bits: seq<bool>)
    requires Wide(poly, top, full) && AtMost(r, full)
    ensures AtMost(Divide(poly, r, bits), full)
    decreases |bits|
  {
    hide Shift, Xor, Wide, BitValue, AtMost;
    if bits != [] {
      var x := Xor(r, BitValue(bits[0]));
      StepInside(poly, top, full, r, bits[0]);
      StaysInside(poly, top, full, Shift(poly, x), bits[1..]);
    }
  }

  lemma StepInside(poly: bv32, top: bv32, full: bv32, r: bv32, e: bool)
    requires Wide(poly, top, full) && AtMost(r, full)
    ensures AtMost(Shift(poly, Xor(r, BitValue(e))), full)
  {
  }

  lemma ZeroOnly(t: bv32, d: bv32)
    requires AtMost(t, d) && d == 0
    ensures t == 0
  {
  }

  /** Registers that differ by at least t differ after as many more bits as t can be halved, the same bits or
      not. */
  lemma {:induction false} WindowTail(poly: bv32, top: bv32, full: bv32, r: bv32, r': bv32, a: seq<bool>, b: seq<bool>,
                                      t: bv32)
    requires Wide(poly, top, full) && |a| == |b| && Power(t, |a|)
    requires AtMost(r, full) && AtMost(r', full) && AtMost(t, Xor(r, r')) && AtMost(t, top)
    ensures Divide(poly, r, a) != Divide(poly, r', b)
    decreases |a|
  {
    hide Shift, Xor, Wide, Odd, Half, BitValue, AtMost, Span;
    PowerIsPositive(t, |a|);
    XorCancels(r, r');
    if Xor(r, r') == 0 { ZeroOnly(t, 0); }
    if a != [] {
      XorFits(poly, top, full, r, r');
      DifferenceStays(poly, top, full, Xor(r, r'), a[0] != b[0], t);
      DifferenceSteps(poly, r, r', a[0], b[0]);
      StepInside(poly, top, full, r, a[0]);
      StepInside(poly, top, full, r', b[0]);
      WindowTail(poly, top, full, Shift(poly, Xor(r, BitValue(a[0]))), Shift(poly, Xor(r', BitValue(b[0]))),
                 a[1..], b[1..], Half(t));
    }
  }

  /** Different bits of at most the width of the register leave different registers. */
  lemma {:induction false} WindowDiffers(poly: bv32, top: bv32, full: bv32, r: bv32, a: seq<bool>, b: seq<bool>)
    requires Wide(poly, top, full) && AtMost(r, full)
    requires |a| == |b| <= Span(full) && a != b
    ensures Divide(poly, r, a) != Divide(poly, r, b)
    decreases |a|
  {
    hide Shift, Xor, Wide, Odd, Half, BitValue, AtMost, Span;
    var x, y := Xor(r, BitValue(a[0])), Xor(r, BitValue(b[0]));
    StepInside(poly, top, full, r, a[0]);
    StepInside(poly, top, full, r, b[0]);
    if a[0] == b[0] {
      assert a == [a[0]] + a[1..] && b == [b[0]] + b[1..];
      WindowDiffers(poly, top, full, Shift(poly, x), a[1..], b[1..]);
    } else {
      FirstDifference(poly, top, full, r, a[0], b[0]);
      TopIsPower(poly, top, full);
      TopAtMostTop(top);
      PowerShorter(top, Span(full) - 1, |a| - 1);
      WindowTail(poly, top, full, Shift(poly, x), Shift(poly, y), a[1..], b[1..], top);
    }
  }

  lemma FirstDifference(poly: bv32, top: bv32, full: bv32, r: bv32, x: bool, y: bool)
    requires Wide(poly, top, full) && AtMost(r, full) && x != y
    ensures AtMost(top, Xor(Shift(poly, Xor(r, BitValue(x))), Shift(poly, Xor(r, BitValue(y)))))
  {
    hide Shift, Xor;
    DifferenceSteps(poly, r, r, x, y);
    XorCancels(r, r);
    XorMoves(0, 1, 0);
    XorCancels(1, 0);
    NoDifferenceFromNone(poly, top, full, 0);
  }

  lemma TopAtMostTop(top: bv32)
    ensures AtMost(top, top)
  {
  }

  lemma {:induction false} PowerShorter(t: bv32, n: nat, m: nat)
    requires Power(t, n) && m <= n
    ensures Power(t, m)
    decreases n
  {
    hide Odd, Half;
    PowerIsPositive(t, n);
    if m > 0 { PowerShorter(Half(t), n - 1, m - 1); }
  }

  /** Equal bits never make different registers equal. */
  lemma {:induction false} SuffixKeeps(poly: bv32, top: bv32, full: bv32, r: bv32, r': bv32, s: seq<bool>)
    requires Wide(poly, top, full) && AtMost(r, full) && AtMost(r', full) && r != r'
    ensures Divide(poly, r, s) != Divide(poly, r', s)
    decreases |s|
  {
    hide Shift, Xor, Wide, BitValue, AtMost;
    if s != [] {
      var e := BitValue(s[0]);
      StepInside(poly, top, full, r, s[0]);
      StepInside(poly, top, full, r', s[0]);
      SameBit(poly, top, full, r, r', s[0]);
      SuffixKeeps(poly, top, full, Shift(poly, Xor(r, e)), Shift(poly, Xor(r', e)), s[1..]);
    }
  }

  lemma SameBit(poly: bv32, top: bv32, full: bv32, r: bv32, r': bv32, x: bool)
    requires Wide(poly, top, full) && AtMost(r, full) && AtMost(r', full) && r != r'
    ensures Shift(poly, Xor(r, BitValue(x))) != Shift(poly, Xor(r', BitValue(x)))
  {
    hide Shift, Xor, Wide, AtMost;
    DifferenceSteps(poly, r, r', x, x);
    XorFits(poly, top, full, r, r');
    XorCancels(r, r');
    XorCancels(Xor(r, r'), 0);
    NoDifferenceFromNone(poly, top, full, Xor(r, r'));
    XorCancels(Shift(poly, Xor(r, BitValue(x))), Shift(poly, Xor(r', BitValue(x))));
  }

  lemma BurstDetected(poly: bv32, top: bv32, full: bv32, r: bv32, p: seq<bool>, a: seq<bool>, b: seq<bool>,
                      s: seq<bool>)
    requires Wide(poly, top, full) && AtMost(r, full)
    requires |a| == |b| <= Span(full) && a != b
    ensures Divide(poly, r, p + a + s) != Divide(poly, r, p + b + s)
  {
    hide Divide, Wide, AtMost, Span;
    DivideJoin(poly, r, p + a, s);
    DivideJoin(poly, r, p + b, s);
    DivideJoin(poly, r, p, a);
    DivideJoin(poly, r, p, b);
    StaysInside(poly, top, full, r, p);
    var q := Divide(poly, r, p);
    WindowDiffers(poly, top, full, q, a, b);
    StaysInside(poly, top, full, q, a);
    StaysInside(poly, top, full, q, b);
    SuffixKeeps(poly, top, full, Divide(poly, q, a), Divide(poly, q, b), s);
  }

  lemma {:induction false} LowBitsInject(a: bv32, b: bv32, n: nat)
    requires LowBits(a, n) == LowBits(b, n) && Halves(a, n) == Halves(b, n)
    ensures a == b
    decreases n
  {
    hide Odd, Half;
    if n > 0 {
      assert LowBits(a, n)[0] == Odd(a) && LowBits(b, n)[0] == Odd(b);
      assert LowBits(a, n)[1..] == LowBits(Half(a), n - 1) && LowBits(b, n)[1..] == LowBits(Half(b), n - 1);
      LowBitsInject(Half(a), Half(b), n - 1);
      HalvesAndBit(a, b);
    }
  }

  lemma HalvesAndBit(a: bv32, b: bv32)
    requires Half(a) == Half(b) && Odd(a) == Odd(b)
    ensures a == b
  {
  }

  lemma {:induction false} BitsInject(a: seq<octet>, b: seq<octet>)
    requires |a| == |b| && Bits(a) == Bits(b)
    ensures a == b
    decreases |a|
  {
    if a != [] {
      hide LowBits;
      var n := |a| - 1;
      assert Bits(a)[..8 * n] == Bits(a[..n]) && Bits(b)[..8 * n] == Bits(b[..n]);
      assert Bits(a)[8 * n..] == LowBits(a[n], 8) && Bits(b)[8 * n..] == LowBits(b[n], 8);
      BitsInject(a[..n], b[..n]);
      OctetHalves(a[n]);
      OctetHalves(b[n]);
      LowBitsInject(a[n], b[n], 8);
      assert a == a[..n] + [a[n]] && b == b[..n] + [b[n]];
    }
  }

  /** Messages that differ only within two neighbouring bytes, in particular in exactly one byte, have different
      16-bit checksums. */
  lemma Crc16Detects(p: seq<octet>, a: seq<octet>, b: seq<octet>, s: seq<octet>, init: word16)
    requires |a| == |b| <= 2 && a != b
    ensures Crc16Of(p + a + s, init) != Crc16Of(p + b + s, init)
  {
    hide Divide, Bits;
    MessageBits(p, a, s);
    MessageBits(p, b, s);
    if Bits(a) == Bits(b) { BitsInject(a, b); }
    BurstDetected(0xA001, 0x8000, 0xFFFF, init, Bits(p), Bits(a), Bits(b), Bits(s));
  }

  /** The same within four neighbouring bytes for the 32-bit checksum. */
  lemma Crc32Detects(p: seq<octet>, a: seq<octet>, b: seq<octet>, s: seq<octet>, init: bv32)
    requires |a| == |b| <= 4 && a != b
    ensures Crc32Of(p + a + s, init) != Crc32Of(p + b + s, init)
  {
    hide Divide, Bits;
    MessageBits(p, a, s);
    MessageBits(p, b, s);
    if Bits(a) == Bits(b) { BitsInject(a, b); }
    BurstDetected(0xEDB88320, 0x8000_0000, 0xFFFF_FFFF, init, Bits(p), Bits(a), Bits(b), Bits(s));
    ComplementInjects(Divide(0xEDB88320, init, Bits(p) + Bits(a) + Bits(s)),
                      Divide(0xEDB88320, init, Bits(p) + Bits(b) + Bits(s)));
  }

  lemma ComplementInjects(a: bv32, b: bv32)
    requires a != b
    ensures !a != !b
  {
  }

  lemma MessageBits(p: seq<octet>, a: seq<octet>, s: seq<octet>)
    ensures Bits(p + a + s) == Bits(p) + Bits(a) + Bits(s)
  {
    BitsJoin(p + a, s);
    BitsJoin(p, a);
  }
}
