/** The chaining modes driven in batches over the AES engine, and the encrypted NAND on top of them. The engine
    is a function from blocks to blocks. */
module AesModes {
  import opened Machine

  const W32: nat := 0x1_0000_0000
  const W128: nat := 0x1_0000_0000_0000_0000_0000_0000_0000_0000

  type word = x: int | 0 <= x < 0x1_0000_0000

  /** Sixteen bytes, as the four little-endian words the processor moves. */
  type Block = b: seq<word> | |b| == 4 witness [0, 0, 0, 0]

  // ----- exclusive or

  function XorBit(a: nat, b: nat): nat { (a + b) % 2 }

  function XorBits(a: nat, b: nat, n: nat): nat {
    if n == 0 then 0 else XorBit(a, b) + 2 * XorBits(a / 2, b / 2, n - 1)
  }

  lemma XorBitUndo(a: nat, b: nat, r: nat)
    ensures XorBit(XorBit(a, b) + 2 * r, b) == a % 2 && (XorBit(a, b) + 2 * r) / 2 == r && XorBit(a, b) < 2
  {
  }

  lemma {:induction false} XorBitsUndo(a: nat, b: nat, n: nat)
    requires a < Pow2(n)
    ensures XorBits(XorBits(a, b, n), b, n) == a
    decreases n
  {
    hide XorBit;
    if n > 0 {
      XorBitsUndo(a / 2, b / 2, n - 1);
      XorBitUndo(a, b, XorBits(a / 2, b / 2, n - 1));
    }
  }

  lemma {:induction false} XorBitsBound(a: nat, b: nat, n: nat)
    ensures XorBits(a, b, n) < Pow2(n)
    decreases n
  {
    hide XorBit;
    if n > 0 {
      XorBitsBound(a / 2, b / 2, n - 1);
      XorBitUndo(a, b, 0);
    }
  }

  function XorWord(a: word, b: word): word {
    Pow2Values();
    XorBitsBound(a, b, 32);
    XorBits(a, b, 32)
  }

  /** A bit of the result is set where the bits of the two words differ. */
  lemma XorWordBits(a: word, b: word, i: nat)
    requires i < 32
    ensures Field(XorWord(a, b), i, 1) == if Field(a, i, 1) == Field(b, i, 1) then 0 else 1
  {
    XorBitsAt(a, b, 32, i);
  }

  lemma {:induction false} XorBitsAt(a: nat, b: nat, n: nat, i: nat)
    requires i < n
    ensures Field(XorBits(a, b, n), i, 1) == if Field(a, i, 1) == Field(b, i, 1) then 0 else 1
    decreases n
  {
    var r := XorBits(a / 2, b / 2, n - 1);
    SmallPow2();
    if i == 0 {
      FirstBits(a, b, r);
    } else {
      hide XorBit;
      XorBitUndo(a, b, r);
      XorBitsAt(a / 2, b / 2, n - 1, i - 1);
      Halved(a, Pow2(i - 1));
      Halved(b, Pow2(i - 1));
      Halved(XorBits(a, b, n), Pow2(i - 1));
    }
  }

  lemma FirstBits(a: nat, b: nat, r: nat)
    ensures (XorBit(a, b) + 2 * r) / 1 % 2 == if a / 1 % 2 == b / 1 % 2 then 0 else 1
  {
  }

  function Xor(a: Block, b: Block): Block {
    [XorWord(a[0], b[0]), XorWord(a[1], b[1]), XorWord(a[2], b[2]), XorWord(a[3], b[3])]
  }

  lemma XorUndo(a: Block, b: Block)
    ensures Xor(Xor(a, b), b) == a
  {
    Pow2Values();
    hide XorBits;
    XorBitsUndo(a[0], b[0], 32);
    XorBitsUndo(a[1], b[1], 32);
    XorBitsUndo(a[2], b[2], 32);
    XorBitsUndo(a[3], b[3], 32);
  }

  // ----- counters

  /** How a block is read as a number: whether its words are big-endian, and whether the first is the most
      significant. */
  datatype IvMode = IvMode(bigEndian: bool, normal: bool)

  const BE_NORMAL := IvMode(true, true)

  /** The bytes of a word in the other order. */
  function Swap(w: word): word {
    var w1 := w / 0x100;
    var w2 := w1 / 0x100;
    var w3 := w2 / 0x100;
    w % 0x100 * 0x100_0000 + w1 % 0x100 * 0x1_0000 + w2 % 0x100 * 0x100 + w3
  }

  lemma SwapTwice(w: word)
    ensures Swap(Swap(w)) == w
  {
    var w1 := w / 0x100;
    var w2 := w1 / 0x100;
    var w3 := w2 / 0x100;
    var a, b, c := w % 0x100, w1 % 0x100, w2 % 0x100;
    SwapOf(w3, c, b, a);
  }

  lemma SwapOf(a: nat, b: nat, c: nat, d: nat)
    requires a < 0x100 && b < 0x100 && c < 0x100 && d < 0x100
    ensures Swap(a + 0x100 * b + 0x1_0000 * c + 0x100_0000 * d)
         == a * 0x100_0000 + b * 0x1_0000 + c * 0x100 + d
  {
    var w2 := c + 0x100 * d;
    var w1 := b + 0x100 * w2;
    LowDigit(a, w1);
    LowDigit(b, w2);
    LowDigit(c, d);
  }

  lemma LowDigit(r: nat, x: nat)
    requires r < 0x100
    ensures (r + 0x100 * x) / 0x100 == x && (r + 0x100 * x) % 0x100 == r
  {
  }

  function WordValue(w: word, m: IvMode): word {
    if m.bigEndian then Swap(w) else w
  }

  function Value(b: Block, m: IvMode): (v: nat)
    ensures v < W128
  {
    var x0, x1, x2, x3 := WordValue(b[0], m), WordValue(b[1], m), WordValue(b[2], m), WordValue(b[3], m);
    if m.normal then Number(x3, x2, x1, x0) else Number(x0, x1, x2, x3)
  }

  // ----- a block as bytes in memory

  function WordBytes(w: word): (b: seq<byte>)
    ensures |b| == 4
  {
    [w % 0x100, w / 0x100 % 0x100, w / 0x1_0000 % 0x100, w / 0x100_0000]
  }

  /** The sixteen bytes of a block, in the order of their addresses. */
  function BlockBytes(b: Block): (r: seq<byte>)
    ensures |r| == 16
  {
    WordBytes(b[0]) + WordBytes(b[1]) + WordBytes(b[2]) + WordBytes(b[3])
  }

  /** The number that bytes stand for, the most significant first. */
  function Be(b: seq<byte>): nat {
    if b == [] then 0 else 0x100 * Be(b[..|b| - 1]) + b[|b| - 1] as int
  }

  lemma BePush(x: seq<byte>, c: byte)
    ensures Be(x + [c]) == 0x100 * Be(x) + c as int
  {
    assert (x + [c])[..|x + [c]| - 1] == x;
  }

  lemma BeWord(x: seq<byte>, w: word)
    ensures Be(x + WordBytes(w)) == 0x1_0000_0000 * Be(x) + Swap(w)
  {
    hide Be;
    var b, w1 := WordBytes(w), w / 0x100;
    var w2 := w1 / 0x100;
    assert w2 / 0x100 < 0x100 && w / 0x1_0000 == w2 && w / 0x100_0000 == w2 / 0x100;
    BePush(x, b[0]);
    BePush(x + [b[0]], b[1]);
    BePush(x + [b[0]] + [b[1]], b[2]);
    BePush(x + [b[0]] + [b[1]] + [b[2]], b[3]);
    assert x + b == x + [b[0]] + [b[1]] + [b[2]] + [b[3]];
  }

  lemma LeWord(w: word, y: seq<byte>)
    ensures Le(WordBytes(w) + y) == w + 0x1_0000_0000 * Le(y)
  {
    var b, w1 := WordBytes(w), w / 0x100;
    var w2 := w1 / 0x100;
    assert w / 0x1_0000 == w2 && w / 0x100_0000 == w2 / 0x100;
    LePush(b[3], y);
    LePush(b[2], [b[3]] + y);
    LePush(b[1], [b[2]] + ([b[3]] + y));
    LePush(b[0], [b[1]] + ([b[2]] + ([b[3]] + y)));
    assert b + y == [b[0]] + ([b[1]] + ([b[2]] + ([b[3]] + y)));
  }

  lemma LePush(c: byte, y: seq<byte>)
    ensures Le([c] + y) == c as int + 0x100 * Le(y)
  {
    assert ([c] + y)[1..] == y;
  }

  /** The number of a block in each order, by its bytes: all of them read from the first or from the last, or
      the words taken the other way around. */
  lemma ValueInBytes(b: Block)
    ensures Value(b, IvMode(true, true)) == Be(BlockBytes(b))
    ensures Value(b, IvMode(false, false)) == Le(BlockBytes(b))
    ensures Value(b, IvMode(true, false)) == Be(BlockBytes([b[3], b[2], b[1], b[0]]))
    ensures Value(b, IvMode(false, true)) == Le(BlockBytes([b[3], b[2], b[1], b[0]]))
  {
    hide Be, Le, Swap;
    BeOfBlock(b);
    LeOfBlock(b);
    BeOfBlock([b[3], b[2], b[1], b[0]]);
    LeOfBlock([b[3], b[2], b[1], b[0]]);
  }

  lemma BeOfBlock(b: Block)
    ensures Be(BlockBytes(b)) == Number(Swap(b[3]), Swap(b[2]), Swap(b[1]), Swap(b[0]))
  {
    hide WordBytes, Swap;
    BeWord([], b[0]);
    assert [] + WordBytes(b[0]) == WordBytes(b[0]);
    BeWord(WordBytes(b[0]), b[1]);
    BeWord(WordBytes(b[0]) + WordBytes(b[1]), b[2]);
    BeWord(WordBytes(b[0]) + WordBytes(b[1]) + WordBytes(b[2]), b[3]);
  }

  lemma LeOfBlock(b: Block)
    ensures Le(BlockBytes(b)) == Number(b[0], b[1], b[2], b[3])
  {
    var w0, w1, w2, w3 := WordBytes(b[0]), WordBytes(b[1]), WordBytes(b[2]), WordBytes(b[3]);
    hide WordBytes;
    LeWord(b[3], []);
    assert w3 + [] == w3;
    LeWord(b[2], w3);
    LeWord(b[1], w2 + w3);
    LeWord(b[0], w1 + (w2 + w3));
    assert BlockBytes(b) == w0 + (w1 + (w2 + w3));
  }

  /** Counters wrap at 2^128. */
  function Plus128(v: nat, k: nat): (r: nat)
    ensures r < W128
  {
    (v + k) % 0x1_0000_0000_0000_0000_0000_0000_0000_0000
  }

  lemma ModAdd(x: nat, q: nat)
    ensures (q * 0x1_0000_0000_0000_0000_0000_0000_0000_0000 + x) % 0x1_0000_0000_0000_0000_0000_0000_0000_0000
            == x % 0x1_0000_0000_0000_0000_0000_0000_0000_0000
  {
  }

  /** Four words, the least significant first. */
  function Number(x0: word, x1: word, x2: word, x3: word): (v: nat)
    ensures v < W128
  {
    x0 + 0x1_0000_0000 * (x1 + 0x1_0000_0000 * (x2 + 0x1_0000_0000 * x3))
  }

  /** Addition that sets the carry flag. */
  method Adds(x: word, v: word) returns (y: word, carry: nat)
    ensures carry <= 1 && y + 0x1_0000_0000 * carry == x + v
  {
    y, carry := (x + v) % 0x1_0000_0000, (x + v) / 0x1_0000_0000;
  }

  /** Addition of a word to four words, the least significant first; a carry is passed on as long as there is
      one. */
  method AddU128U32(x0: word, x1: word, x2: word, x3: word, val: word)
    returns (y0: word, y1: word, y2: word, y3: word)
    ensures Number(y0, y1, y2, y3) == Plus128(Number(x0, x1, x2, x3), val)
  {
    hide Number, Plus128;
    y1, y2, y3 := x1, x2, x3;
    var carry;
    y0, carry := Adds(x0, val);
    ghost var c0 := carry;
    if carry == 1 { y1, carry := Adds(y1, 1); }
    ghost var c1 := carry;
    if carry == 1 { y2, carry := Adds(y2, 1); }
    ghost var c2 := carry;
    if carry == 1 { y3, carry := Adds(y3, 1); }
    Carries(x0, x1, x2, x3, y0, y1, y2, y3, val, c0, c1, c2, carry);
  }

  /** Long addition word by word is addition modulo 2^128. */
  lemma Carries(x0: word, x1: word, x2: word, x3: word, y0: word, y1: word, y2: word, y3: word,
                val: nat, c0: nat, c1: nat, c2: nat, c3: nat)
    requires y0 + 0x1_0000_0000 * c0 == x0 + val && y1 + 0x1_0000_0000 * c1 == x1 + c0
    requires y2 + 0x1_0000_0000 * c2 == x2 + c1 && y3 + 0x1_0000_0000 * c3 == x3 + c2
    ensures Plus128(Number(x0, x1, x2, x3), val) == Number(y0, y1, y2, y3)
  {
    hide Number, Plus128;
    CarriesAddUp(x0, x1, x2, x3, y0, y1, y2, y3, val, c0, c1, c2, c3);
    CutOff(Number(x0, x1, x2, x3), val, Number(y0, y1, y2, y3), c3);
  }

  lemma CarriesAddUp(x0: word, x1: word, x2: word, x3: word, y0: word, y1: word, y2: word, y3: word,
                     val: nat, c0: nat, c1: nat, c2: nat, c3: nat)
    requires y0 + 0x1_0000_0000 * c0 == x0 + val && y1 + 0x1_0000_0000 * c1 == x1 + c0
    requires y2 + 0x1_0000_0000 * c2 == x2 + c1 && y3 + 0x1_0000_0000 * c3 == x3 + c2
    ensures Number(x0, x1, x2, x3) + val == c3 * 0x1_0000_0000_0000_0000_0000_0000_0000_0000 + Number(y0, y1, y2, y3)
  {
    assert x2 + 0x1_0000_0000 * x3 + c1 == y2 + 0x1_0000_0000 * (y3 + 0x1_0000_0000 * c3);
    assert x1 + 0x1_0000_0000 * (x2 + 0x1_0000_0000 * x3) + c0
        == y1 + 0x1_0000_0000 * (y2 + 0x1_0000_0000 * (y3 + 0x1_0000_0000 * c3));
  }

  lemma CutOff(n: nat, val: nat, m: nat, q: nat)
    requires n + val == q * 0x1_0000_0000_0000_0000_0000_0000_0000_0000 + m && m < W128
    ensures Plus128(n, val) == m
  {
    ModAdd(m, q);
  }

  /** Swaps the bytes of every word of a big-endian block. */
  method SwapWords(ctr: array<word>, swap: bool)
    requires ctr.Length == 4
    modifies ctr
    ensures ctr[..] == if swap then Swapped(old(ctr[..])) else old(ctr[..])
  {
    if swap {
      var i := 0;
      while i < 4
        invariant i <= 4
        invariant forall k :: 0 <= k < 4 ==> ctr[k] == if k < i then Swap(old(ctr[k])) else old(ctr[k])
      {
        ctr[i] := Swap(ctr[i]);
        i := i + 1;
      }
    }
  }

  function Swapped(b: Block): Block {
    [Swap(b[0]), Swap(b[1]), Swap(b[2]), Swap(b[3])]
  }

  /** `aes_advctr`: the counter plus the value, modulo 2^128. */
  method AdvCtr(ctr: array<word>, val: word, m: IvMode)
    requires ctr.Length == 4
    modifies ctr
    ensures Value(ctr[..], m) == Plus128(old(Value(ctr[..], m)), val)
  {
    hide Swap, Number, Plus128;
    SwapWords(ctr, m.bigEndian);
    ghost var native := ctr[..];
    if m.normal {
      ctr[3], ctr[2], ctr[1], ctr[0] := AddU128U32(ctr[3], ctr[2], ctr[1], ctr[0], val);
    } else {
      ctr[0], ctr[1], ctr[2], ctr[3] := AddU128U32(ctr[0], ctr[1], ctr[2], ctr[3], val);
    }
    SwappedTwice(ctr[..]);
    SwapWords(ctr, m.bigEndian);
  }

  lemma SwappedTwice(b: Block)
    ensures Swapped(Swapped(b)) == b
    ensures forall i :: 0 <= i < 4 ==> Swap(Swap(b[i])) == b[i]
  {
    hide Swap;
    SwapTwice(b[0]);
    SwapTwice(b[1]);
    SwapTwice(b[2]);
    SwapTwice(b[3]);
  }

  /** `aes_change_ctrmode`: the same number written another way. */
  method ChangeCtrMode(ctr: array<word>, from: IvMode, to: IvMode)
    requires ctr.Length == 4
    modifies ctr
    ensures Value(ctr[..], to) == old(Value(ctr[..], from))
  {
    hide Swap, Number;
    SwappedTwice(ctr[..]);
    SwapWords(ctr, from.bigEndian != to.bigEndian);
    if from.normal != to.normal {
      ctr[0], ctr[3] := ctr[3], ctr[0];
      ctr[1], ctr[2] := ctr[2], ctr[1];
    }
  }

  // ----- the modes, in one piece

  /** The engine with its key. */
  datatype Engine = Engine(encrypt: Block -> Block, decrypt: Block -> Block)

  datatype Mode = Ctr | CbcDecrypt | CbcEncrypt | EcbDecrypt | EcbEncrypt

  /** A number as the engine takes it in. */
  function ToBlock(v: nat): Block {
    [Swap(v / 0x1_0000_0000_0000_0000_0000_0000 % 0x1_0000_0000), Swap(v / 0x1_0000_0000_0000_0000 % 0x1_0000_0000),
     Swap(v / 0x1_0000_0000 % 0x1_0000_0000), Swap(v % 0x1_0000_0000)]
  }

  lemma DigitsOfNumber(x0: word, x1: word, x2: word, x3: word)
    ensures var v := Number(x0, x1, x2, x3);
            && v % 0x1_0000_0000 == x0 && v / 0x1_0000_0000 % 0x1_0000_0000 == x1
            && v / 0x1_0000_0000_0000_0000 % 0x1_0000_0000 == x2
            && v / 0x1_0000_0000_0000_0000_0000_0000 % 0x1_0000_0000 == x3
  {
    var v, q := Number(x0, x1, x2, x3), x2 + 0x1_0000_0000 * x3;
    Quotient(v, x0, x1 + 0x1_0000_0000 * q, 0x1_0000_0000);
    Quotient(x1 + 0x1_0000_0000 * q, x1, q, 0x1_0000_0000);
    Quotient(v, x0 + 0x1_0000_0000 * x1, q, 0x1_0000_0000_0000_0000);
    Quotient(q, x2, x3, 0x1_0000_0000);
    Quotient(v, x0 + 0x1_0000_0000 * x1 + 0x1_0000_0000_0000_0000 * x2, x3, 0x1_0000_0000_0000_0000_0000_0000);
  }

  lemma NumberOfDigits(v: nat)
    requires v < W128
    ensures exists x0: word, x1: word, x2: word, x3: word :: v == Number(x0, x1, x2, x3)
  {
    var q1 := v / 0x1_0000_0000;
    var q2 := q1 / 0x1_0000_0000;
    var q3 := q2 / 0x1_0000_0000;
    assert q1 < 0x1_0000_0000_0000_0000_0000_0000;
    assert q2 < 0x1_0000_0000_0000_0000;
    assert v == Number(v % 0x1_0000_0000, q1 % 0x1_0000_0000, q2 % 0x1_0000_0000, q3);
  }

  /** What the engine takes in is the one block whose bytes, read from the first, are the number. */
  lemma ToBlockIs(v: nat, b: Block)
    requires v < W128
    ensures Value(ToBlock(v), BE_NORMAL) == v
    ensures Value(b, BE_NORMAL) == v <==> b == ToBlock(v)
  {
    hide Swap;
    var x0: word, x1: word, x2: word, x3: word :| v == Number(x0, x1, x2, x3) by { NumberOfDigits(v); }
    DigitsOfNumber(x0, x1, x2, x3);
    SwapTwice(x0);
    SwapTwice(x1);
    SwapTwice(x2);
    SwapTwice(x3);
    DigitsOfNumber(Swap(b[3]), Swap(b[2]), Swap(b[1]), Swap(b[0]));
    hide Number;
    SwappedTwice(b);
  }

  /** What a mode makes of one block, given the number it is chained to. */
  function OneBlock(e: Engine, mode: Mode, v: nat, b: Block): Block {
    match mode
    case Ctr => Xor(b, e.encrypt(ToBlock(v)))
    case CbcDecrypt => Xor(e.decrypt(b), ToBlock(v))
    case CbcEncrypt => e.encrypt(Xor(b, ToBlock(v)))
    case EcbDecrypt => e.decrypt(b)
    case EcbEncrypt => e.encrypt(b)
  }

  /** The number the next block is chained to. */
  function NextIv(e: Engine, mode: Mode, v: nat, b: Block): nat {
    match mode
    case Ctr => Plus128(v, 1)
    case CbcDecrypt => Value(b, BE_NORMAL)
    case CbcEncrypt => Value(OneBlock(e, mode, v, b), BE_NORMAL)
    case EcbDecrypt => v
    case EcbEncrypt => v
  }

  function FinalIv(e: Engine, mode: Mode, v: nat, src: seq<Block>): nat {
    if src == [] then v
    else
      var n := |src| - 1;
      NextIv(e, mode, FinalIv(e, mode, v, src[..n]), src[n])
  }

  /** A whole message through a mode at once. */
  function Stream(e: Engine, mode: Mode, v: nat, src: seq<Block>): (r: seq<Block>)
    ensures |r| == |src|
  {
    if src == [] then []
    else
      var n := |src| - 1;
      Stream(e, mode, v, src[..n]) + [OneBlock(e, mode, FinalIv(e, mode, v, src[..n]), src[n])]
  }

  lemma {:induction false} StreamJoin(e: Engine, mode: Mode, v: nat, x: seq<Block>, y: seq<Block>)
    ensures FinalIv(e, mode, v, x + y) == FinalIv(e, mode, FinalIv(e, mode, v, x), y)
    ensures Stream(e, mode, v, x + y) == Stream(e, mode, v, x) + Stream(e, mode, FinalIv(e, mode, v, x), y)
    decreases |y|
  {
    hide NextIv, OneBlock;
    if y == [] {
      assert x + y == x;
    } else {
      var n := |y| - 1;
      assert (x + y)[..|x + y| - 1] == x + y[..n];
      StreamJoin(e, mode, v, x, y[..n]);
    }
  }

  /** Where a mode leaves its number. */
  lemma {:induction false} FinalIvIs(e: Engine, mode: Mode, v: nat, src: seq<Block>)
    requires src != [] && v < W128
    ensures match mode
      case Ctr => FinalIv(e, mode, v, src) == Plus128(v, |src|)
      case CbcDecrypt => FinalIv(e, mode, v, src) == Value(src[|src| - 1], BE_NORMAL)
      case CbcEncrypt => FinalIv(e, mode, v, src) == Value(Stream(e, mode, v, src)[|src| - 1], BE_NORMAL)
      case EcbDecrypt => FinalIv(e, mode, v, src) == v
      case EcbEncrypt => FinalIv(e, mode, v, src) == v
    decreases |src|
  {
    hide OneBlock, Value;
    var n := |src| - 1;
    if n > 0 {
      FinalIvIs(e, mode, v, src[..n]);
      if mode == Ctr { ModTwice(v, n, 1); }
    }
  }

  lemma ModTwice(v: nat, a: nat, b: nat)
    ensures Plus128(Plus128(v, a), b) == Plus128(v, a + b)
  {
    var q := (v + a) / 0x1_0000_0000_0000_0000_0000_0000_0000_0000;
    assert v + a == q * 0x1_0000_0000_0000_0000_0000_0000_0000_0000 + Plus128(v, a);
    ModAdd(Plus128(v, a) + b, q);
  }

  lemma {:induction false} CtrBlock(e: Engine, v: nat, src: seq<Block>, j: nat)
    requires j < |src| && v < W128
    ensures Stream(e, Ctr, v, src)[j] == Xor(src[j], e.encrypt(ToBlock(Plus128(v, j))))
    decreases |src|
  {
    hide Xor, ToBlock;
    var n := |src| - 1;
    if j < n {
      CtrBlock(e, v, src[..n], j);
    } else if n > 0 {
      FinalIvIs(e, Ctr, v, src[..n]);
    }
  }

  /** Counter mode, section 6.5 of NIST SP 800-38A: block j is masked with the encryption of the block c whose
      bytes, the first the most significant, are the counter plus j modulo 2^128. */
  lemma CtrBlocks(e: Engine, v: nat, src: seq<Block>, j: nat, c: Block)
    requires j < |src| && v < W128
    requires Be(BlockBytes(c)) == (v + j) % 0x1_0000_0000_0000_0000_0000_0000_0000_0000
    ensures Stream(e, Ctr, v, src)[j] == Xor(src[j], e.encrypt(c))
  {
    hide Stream, Xor, ToBlock, Be, BlockBytes, Value;
    CtrBlock(e, v, src, j);
    ValueInBytes(c);
    ToBlockIs(Plus128(v, j), c);
  }

  /** Chaining mode, section 6.2 of NIST SP 800-38A, from the block c on: a block is decrypted and masked with the
      encrypted block before it, and masked with that and encrypted. */
  lemma {:induction false} CbcBlocks(e: Engine, c: Block, src: seq<Block>, j: nat)
    requires j < |src|
    ensures var v := Be(BlockBytes(c));
            var out := Stream(e, CbcEncrypt, v, src);
            && Stream(e, CbcDecrypt, v, src)[j] == Xor(e.decrypt(src[j]), if j == 0 then c else src[j - 1])
            && out[j] == e.encrypt(Xor(src[j], if j == 0 then c else out[j - 1]))
    decreases |src|
  {
    hide Xor, ToBlock, Be, BlockBytes, Value;
    var n := |src| - 1;
    if j < n {
      CbcBlocks(e, c, src[..n], j);
    } else {
      ValueInBytes(c);
      var before := src[..n];
      var v := Value(c, BE_NORMAL);
      if n == 0 {
        ToBlockIs(v, c);
      } else {
        FinalIvIs(e, CbcDecrypt, v, before);
        FinalIvIs(e, CbcEncrypt, v, before);
        var last := Stream(e, CbcEncrypt, v, before)[n - 1];
        ToBlockIs(Value(src[n - 1], BE_NORMAL), src[n - 1]);
        ToBlockIs(Value(last, BE_NORMAL), last);
      }
    }
  }

  /** Without chaining every block stands alone. */
  lemma {:induction false} EcbBlocks(e: Engine, v: nat, src: seq<Block>, j: nat)
    requires j < |src|
    ensures Stream(e, EcbDecrypt, v, src)[j] == e.decrypt(src[j])
    ensures Stream(e, EcbEncrypt, v, src)[j] == e.encrypt(src[j])
    decreases |src|
  {
    var n := |src| - 1;
    if j < n { EcbBlocks(e, v, src[..n], j); }
  }

  // ----- the modes, in batches over memory

  /** xs written over a memory from `at` on. */
  function Put(mem: seq<Block>, at: nat, xs: seq<Block>): (r: seq<Block>)
    requires at + |xs| <= |mem|
    ensures |r| == |mem|
  {
    mem[..at] + xs + mem[at + |xs|..]
  }

  lemma PutNext(mem: seq<Block>, at: nat, xs: seq<Block>, b: Block)
    requires at + |xs| < |mem|
    ensures Put(mem, at, xs)[at + |xs|] == mem[at + |xs|]
    ensures Put(mem, at, xs)[at + |xs| := b] == Put(mem, at, xs + [b])
  {
  }

  lemma StreamNext(e: Engine, mode: Mode, v: nat, src: seq<Block>, k: nat)
    requires k < |src|
    ensures var w := FinalIv(e, mode, v, src[..k]);
            Stream(e, mode, v, src[..k + 1]) == Stream(e, mode, v, src[..k]) + [OneBlock(e, mode, w, src[k])]
            && FinalIv(e, mode, v, src[..k + 1]) == NextIv(e, mode, w, src[k])
  {
    hide OneBlock, NextIv;
    assert src[..k + 1][..k] == src[..k];
  }

  lemma PutMore(mem: seq<Block>, at: nat, xs: seq<Block>, ys: seq<Block>)
    requires at + |xs| + |ys| <= |mem|
    ensures Put(Put(mem, at, xs), at + |xs|, ys) == Put(mem, at, xs + ys)
  {
  }

  /** The engine takes in and gives out a block at a time, with the number it was last given. */
  method Batch(e: Engine, mode: Mode, reg: nat, dst: array<Block>, d: nat, src: array<Block>, s: nat, count: nat)
    requires d + count <= dst.Length && s + count <= src.Length && (dst == src ==> d == s)
    modifies dst
    ensures dst[..] == Put(old(dst[..]), d, Stream(e, mode, reg, old(src[s..s + count])))
  {
    hide OneBlock, NextIv, Put, Stream, FinalIv;
    ghost var input, mem, smem := src[s..s + count], dst[..], src[..];
    var v, k := reg, 0;
    EmptyStream(e, mode, reg, mem, d, input);
    while k < count
      invariant k <= count && v == FinalIv(e, mode, reg, input[..k])
      invariant dst[..] == Put(mem, d, Stream(e, mode, reg, input[..k]))
      invariant src != dst ==> src[..] == smem
    {
      var b := src[s + k];
      ghost var xs := Stream(e, mode, reg, input[..k]);
      var out := OneBlock(e, mode, v, b);
      PutNext(mem, d, xs, out);
      assert b == input[k] by {
        assert src == dst ==> dst[..][d + k] == mem[d + k];
        assert src != dst ==> src[..][s + k] == smem[s + k];
      }
      StreamNext(e, mode, reg, input, k);
      v := NextIv(e, mode, v, b);
      dst[d + k] := out;
      assert dst[..] == Put(mem, d, xs)[d + k := out];
      k := k + 1;
    }
    assert input[..count] == input;
  }

  lemma EmptyStream(e: Engine, mode: Mode, v: nat, mem: seq<Block>, d: nat, input: seq<Block>)
    requires d <= |mem|
    ensures FinalIv(e, mode, v, input[..0]) == v && Put(mem, d, Stream(e, mode, v, input[..0])) == mem
  {
  }

  lemma {:induction false} EcbIgnoresIv(e: Engine, mode: Mode, v: nat, w: nat, src: seq<Block>)
    requires mode == EcbDecrypt || mode == EcbEncrypt
    ensures Stream(e, mode, v, src) == Stream(e, mode, w, src)
    decreases |src|
  {
    if src != [] { EcbIgnoresIv(e, mode, v, w, src[..|src| - 1]); }
  }

  method CopyBlock(iv: array<word>, b: Block)
    requires iv.Length == 4
    modifies iv
    ensures iv[..] == b
  {
    iv[0], iv[1], iv[2], iv[3] := b[0], b[1], b[2], b[3];
  }

  const BATCH: nat := 0xFFFF

  /** One batch, with the number saved before it or advanced after it as the mode needs. */
  method OneBatch(e: Engine, mode: Mode, dst: array<Block>, d: nat, src: array<Block>, s: nat, count: nat,
                  iv: array<word>, ivMode: IvMode)
    requires d + count <= dst.Length && s + count <= src.Length && (dst == src ==> d == s)
    requires iv.Length == 4 && 0 < count <= 0xFFFF
    modifies dst, iv
    ensures dst[..] == Put(old(dst[..]), d, Stream(e, mode, old(Value(iv[..], ivMode)), old(src[s..s + count])))
    ensures Value(iv[..], ivMode) == FinalIv(e, mode, old(Value(iv[..], ivMode)), old(src[s..s + count]))
  {
    hide OneBlock, NextIv, Put, Stream, FinalIv, Value;
    ghost var input, mem := src[s..s + count], dst[..];
    ghost var v := Value(iv[..], ivMode);
    var reg := 0;
    if mode != EcbEncrypt && mode != EcbDecrypt {
      reg := Value(iv[..], ivMode);
    } else {
      EcbIgnoresIv(e, mode, 0, v, input);
    }
    FinalIvIs(e, mode, v, input);
    if mode == CbcDecrypt {
      CopyBlock(iv, src[s + count - 1]);
      ChangeCtrMode(iv, BE_NORMAL, ivMode);
    }
    assert src[s..s + count] == input && dst[..] == mem;
    Batch(e, mode, reg, dst, d, src, s, count);
    PutLast(mem, d, Stream(e, mode, v, input));
    if mode == CbcEncrypt {
      assert dst[..][d + count - 1] == Stream(e, mode, v, input)[count - 1];
      CopyBlock(iv, dst[d + count - 1]);
      ChangeCtrMode(iv, BE_NORMAL, ivMode);
    } else if mode == Ctr {
      AdvCtr(iv, count, ivMode);
    }
  }

  lemma PutLast(mem: seq<Block>, at: nat, xs: seq<Block>)
    requires at + |xs| <= |mem| && xs != []
    ensures Put(mem, at, xs)[at + |xs| - 1] == xs[|xs| - 1]
  {
  }

  lemma PutBeyond(mem: seq<Block>, at: nat, xs: seq<Block>)
    requires at + |xs| <= |mem|
    ensures Put(mem, at, xs)[at + |xs|..] == mem[at + |xs|..]
  {
  }

  lemma SameSlice(x: seq<Block>, y: seq<Block>, s: nat, a: nat, n: nat, count: nat)
    requires |x| == |y| && s + count <= |y| && a + n <= count && x[s + a..] == y[s + a..]
    ensures x[s + a..s + a + n] == y[s..s + count][a..a + n]
  {
    assert x[s + a..s + a + n] == x[s + a..][..n];
    assert y[s + a..s + a + n] == y[s + a..][..n];
    var part, left := y[s + a..s + a + n], y[s..s + count][a..a + n];
    forall i | 0 <= i < n
      ensures left[i] == part[i]
    {
    }
  }

  /** `aes`: cutting the message into batches changes nothing, in place or not, for any mode and length. */
  method Aes(e: Engine, mode: Mode, dst: array<Block>, d: nat, src: array<Block>, s: nat, blockCount: nat,
             iv: array<word>, ivMode: IvMode)
    requires d + blockCount <= dst.Length && s + blockCount <= src.Length && (dst == src ==> d == s)
    requires iv.Length == 4
    modifies dst, iv
    ensures dst[..]
         == Put(old(dst[..]), d, Stream(e, mode, old(Value(iv[..], ivMode)), old(src[s..s + blockCount])))
    ensures Value(iv[..], ivMode) == FinalIv(e, mode, old(Value(iv[..], ivMode)), old(src[s..s + blockCount]))
  {
    hide OneBlock, NextIv, Put, Stream, FinalIv, Value;
    ghost var input, mem, smem := src[s..s + blockCount], dst[..], src[..];
    ghost var v := Value(iv[..], ivMode);
    EmptyStream(e, mode, v, mem, d, input);
    var done := 0;
    while blockCount - done != 0
      invariant done <= blockCount && Value(iv[..], ivMode) == FinalIv(e, mode, v, input[..done])
      invariant dst[..] == Put(mem, d, Stream(e, mode, v, input[..done]))
      invariant src != dst ==> src[..] == smem
      decreases blockCount - done
    {
      var left := blockCount - done;
      var blocks := if left >= BATCH then BATCH else left;
      ghost var xs := Stream(e, mode, v, input[..done]);
      ghost var next := input[done..done + blocks];
      PutBeyond(mem, d, xs);
      if src == dst {
        assert dst[..][d + done..] == mem[d + done..];
      }
      SameSlice(src[..], smem, s, done, blocks, blockCount);
      assert src[s + done..s + done + blocks] == src[..][s + done..s + done + blocks];
      OneBatch(e, mode, dst, d + done, src, s + done, blocks, iv, ivMode);
      assert input[..done + blocks] == input[..done] + next;
      StreamJoin(e, mode, v, input[..done], next);
      PutMore(mem, d, xs, Stream(e, mode, FinalIv(e, mode, v, input[..done]), next));
      done := done + blocks;
    }
    assert input[..blockCount] == input;
  }

  // ----- what the modes undo

  /** Counter mode is its own inverse. */
  lemma {:induction false} CtrUndo(e: Engine, v: nat, src: seq<Block>)
    requires v < W128
    ensures Stream(e, Ctr, v, Stream(e, Ctr, v, src)) == src
  {
    hide Xor, ToBlock, Stream;
    var out := Stream(e, Ctr, v, src);
    forall j | 0 <= j < |src|
      ensures Stream(e, Ctr, v, out)[j] == src[j]
    {
      CtrBlock(e, v, src, j);
      CtrBlock(e, v, out, j);
      XorUndo(src[j], e.encrypt(ToBlock(Plus128(v, j))));
    }
  }

  /** Decryption in chaining mode undoes encryption if the engine does so on single blocks, section 6.2 of
      NIST SP 800-38A. */
  lemma {:induction false} CbcUndo(e: Engine, v: nat, src: seq<Block>)
    requires forall b: Block :: e.decrypt(e.encrypt(b)) == b
    ensures Stream(e, CbcDecrypt, v, Stream(e, CbcEncrypt, v, src)) == src
    ensures FinalIv(e, CbcDecrypt, v, Stream(e, CbcEncrypt, v, src)) == FinalIv(e, CbcEncrypt, v, src)
    decreases |src|
  {
    hide Xor, ToBlock, Value;
    if src != [] {
      var n := |src| - 1;
      CbcUndo(e, v, src[..n]);
      var out := Stream(e, CbcEncrypt, v, src);
      assert out[..n] == Stream(e, CbcEncrypt, v, src[..n]);
      XorUndo(src[n], ToBlock(FinalIv(e, CbcEncrypt, v, src[..n])));
    }
  }

  // ----- the encrypted NAND

  const SECTOR_BLOCKS: nat := 32
  const BUFFER_SECTORS: nat := 32

  /** The block number the code computes for a sector: a 32-bit byte offset, divided by the block size. */
  function StartBlock(sector: nat): (r: nat)
    ensures r < W32
  {
    sector * 0x200 % 0x1_0000_0000 / 16
  }

  /** It is the number of the sector's first block exactly while the byte offset stays below 2^32. */
  lemma StartBlockIff(sector: nat)
    ensures StartBlock(sector) == SECTOR_BLOCKS * sector <==> sector * 0x200 < W32
  {
    if sector * 0x200 < W32 {
      assert sector * 0x200 == 16 * (SECTOR_BLOCKS * sector);
    }
  }

  /** Beyond that the numbers start again every 2^23 sectors. */
  lemma StartBlockAgain(sector: nat)
    ensures StartBlock(sector) == 32 * (sector % 0x80_0000)
  {
    var q, r := sector / 0x80_0000, sector % 0x80_0000;
    Quotient(sector * 0x200, r * 0x200, q, 0x1_0000_0000);
  }

  function Min(a: nat, b: nat): nat { if a < b then a else b }

  class CtrNand {
    const nand: array<Block>
    const buffer: array<Block>
    const nandCtr: array<word>
    const engine: Engine
    const fatStart: word
    /** The SD card that holds an image of the NAND from sector emuOffset on, and whether it is read instead. */
    const sd: array<Block>
    const emuOffset: word
    const onSd: bool

    ghost predicate Valid() {
      && buffer.Length == 1024 && nandCtr.Length == 4
      && buffer != nand && buffer != sd && sd != nand
      && SECTOR_BLOCKS * emuOffset <= sd.Length
    }

    constructor (engine: Engine, fatStart: word, blocks: nat, emuOffset: word, emuBlocks: nat, onSd: bool)
      requires SECTOR_BLOCKS * emuOffset <= emuBlocks
      ensures Valid() && this.engine == engine && this.fatStart == fatStart && nand.Length == blocks
      ensures this.emuOffset == emuOffset && sd.Length == emuBlocks && this.onSd == onSd
    {
      this.engine, this.fatStart, this.emuOffset, this.onSd := engine, fatStart, emuOffset, onSd;
      var zero: Block := [0, 0, 0, 0];
      nand := new Block[blocks](_ => zero);
      sd := new Block[emuBlocks](_ => zero);
      buffer := new Block[SECTOR_BLOCKS * BUFFER_SECTORS](_ => zero);
      nandCtr := new word[4](_ => 0);
    }

    ghost function Counter(): (v: nat)
      requires Valid()
      reads nandCtr
      ensures v < W128
    {
      Value(nandCtr[..], BE_NORMAL)
    }

    /** The blocks that are read: the NAND, or its image. */
    ghost function Device(): (r: seq<Block>)
      requires Valid()
      reads nand, sd
    {
      if onSd then sd[SECTOR_BLOCKS * emuOffset..] else nand[..]
    }

    /** The device as it is meant: every block in counter mode under its own number. */
    ghost function Plain(): (r: seq<Block>)
      requires Valid()
      reads nand, sd, nandCtr
      ensures |r| == |Device()|
    {
      Stream(engine, Ctr, Counter(), Device())
    }

    /** The partition starts at fatStart; its sectors lie on a device of so many blocks. */
    ghost predicate Inside(sector: nat, count: nat, blocks: nat) {
      && SECTOR_BLOCKS * (sector + fatStart + count) <= blocks
      && sector + fatStart + count < W32 && count * 0x200 < W32
    }

    static method ReadSectors(device: array<Block>, at: nat, out: array<Block>, n: nat)
      requires at + n <= device.Length && n <= out.Length && out != device
      modifies out
      ensures out[..] == Put(old(out[..]), 0, device[at..at + n])
    {
      forall i | 0 <= i < n { out[i] := device[at + i]; }
    }

    method WriteSectors(at: nat, n: nat)
      requires at + n <= nand.Length && n <= buffer.Length && buffer != nand
      modifies nand
      ensures nand[..] == Put(old(nand[..]), at, buffer[..n])
    {
      forall i | 0 <= i < n { nand[at + i] := buffer[i]; }
    }

    /** The encrypted sectors, from the NAND or its image. */
    method Fetch(sector: nat, n: nat, out: array<Block>)
      requires Valid() && SECTOR_BLOCKS * (sector + fatStart) + n <= |Device()| && n <= out.Length
      requires out != nand && out != sd
      modifies out
      ensures var at := SECTOR_BLOCKS * (sector + fatStart);
              out[..] == Put(old(out[..]), 0, Device()[at..at + n])
    {
      hide Put;
      if !onSd {
        ReadSectors(nand, SECTOR_BLOCKS * (sector + fatStart), out, n);
      } else {
        var from := SECTOR_BLOCKS * (sector + emuOffset + fatStart);
        ghost var at := SECTOR_BLOCKS * (sector + fatStart);
        assert sd[from..from + n] == Device()[at..at + n];
        ReadSectors(sd, from, out, n);
      }
    }

    /** The sectors and their decryption from a counter the caller gives. */
    method FetchPlain(sector: nat, n: nat, out: array<Block>, ctr: array<word>)
      requires Valid() && SECTOR_BLOCKS * (sector + fatStart) + n <= |Device()| && n <= out.Length
      requires out != nand && out != sd && ctr.Length == 4
      modifies out, ctr
      ensures var at := SECTOR_BLOCKS * (sector + fatStart);
              out[..] == Put(old(out[..]), 0,
                             Stream(engine, Ctr, old(Value(ctr[..], BE_NORMAL)), old(Device()[at..at + n])))
    {
      hide Put, Stream, Value, OneBlock, FinalIv, Device;
      ghost var mem, v := out[..], Value(ctr[..], BE_NORMAL);
      ghost var at := SECTOR_BLOCKS * (sector + fatStart);
      ghost var cipher := Device()[at..at + n];
      Fetch(sector, n, out);
      PutTwice(mem, 0, cipher, Stream(engine, Ctr, v, cipher));
      PutSlice(mem, 0, cipher);
      assert out[0..n] == out[..][0..n];
      Aes(engine, Ctr, out, 0, out, 0, n, ctr, BE_NORMAL);
    }

    /** `ctrNandRead`; the counter is that of the sector of the NAND, also when its image is read. */
    method Read(sector: nat, count: nat, out: array<Block>)
      requires Valid() && Inside(sector, count, |Device()|) && SECTOR_BLOCKS * count <= out.Length
      requires onSd ==> sector + emuOffset + fatStart + count < W32
      requires out != nand && out != buffer && out != sd
      modifies out
      ensures var at, n := SECTOR_BLOCKS * (sector + fatStart), SECTOR_BLOCKS * count;
              out[..] == Put(old(out[..]), 0, Stream(engine, Ctr, Plus128(Counter(), StartBlock(sector + fatStart)),
                                                     Device()[at..at + n]))
      ensures (sector + fatStart) * 0x200 < W32 ==>
                var at, n := SECTOR_BLOCKS * (sector + fatStart), SECTOR_BLOCKS * count;
                out[..n] == Plain()[at..at + n]
    {
      hide Put, Stream, Value, OneBlock, Device, StartBlock, Plus128;
      ghost var mem := out[..];
      StartBlockIff(count);
      var tmpCtr := new word[4];
      CopyBlock(tmpCtr, nandCtr[..]);
      AdvCtr(tmpCtr, StartBlock(sector + fatStart), BE_NORMAL);
      FetchPlain(sector, StartBlock(count), out, tmpCtr);
      if (sector + fatStart) * 0x200 < W32 {
        PlainView(engine, Counter(), Device(), sector + fatStart, StartBlock(count), mem, out[..]);
      }
    }

    /** `ctrNandWrite`: through the buffer, in pieces, always to the NAND itself. */
    method Write(sector: nat, count: nat, inbuf: seq<Block>)
      requires Valid() && Inside(sector, count, nand.Length) && |inbuf| == SECTOR_BLOCKS * count
      modifies nand, buffer
      ensures nand[..] == Put(old(nand[..]), SECTOR_BLOCKS * (sector + fatStart),
                              Stream(engine, Ctr, Plus128(Counter(), StartBlock(sector + fatStart)), inbuf))
      ensures !onSd && (sector + fatStart) * 0x200 < W32 ==>
                Plain() == Put(old(Plain()), SECTOR_BLOCKS * (sector + fatStart), inbuf)
      ensures onSd ==> Plain() == old(Plain())
    {
      hide Put, Stream, Value, OneBlock, FinalIv, Plus128;
      var at := SECTOR_BLOCKS * (sector + fatStart);
      ghost var mem := nand[..];
      var tmpCtr := new word[4];
      CopyBlock(tmpCtr, nandCtr[..]);
      AdvCtr(tmpCtr, StartBlock(sector + fatStart), BE_NORMAL);
      ghost var v := Value(tmpCtr[..], BE_NORMAL);
      EmptyStream(engine, Ctr, v, mem, at, inbuf);
      var tempSector := 0;
      while tempSector < count
        invariant Value(tmpCtr[..], BE_NORMAL) ==
                  FinalIv(engine, Ctr, v, inbuf[..SECTOR_BLOCKS * Min(tempSector, count)])
        invariant nand[..] == Put(mem, at, Stream(engine, Ctr, v, inbuf[..SECTOR_BLOCKS * Min(tempSector, count)]))
        invariant fresh(tmpCtr)
      {
        var tempCount := if BUFFER_SECTORS < count - tempSector then BUFFER_SECTORS else count - tempSector;
        var done, n := SECTOR_BLOCKS * tempSector, SECTOR_BLOCKS * tempCount;
        WritePiece(at + done, inbuf[done..done + n], tmpCtr);
        assert inbuf[..done + n] == inbuf[..done] + inbuf[done..done + n];
        StreamJoin(engine, Ctr, v, inbuf[..done], inbuf[done..done + n]);
        PutMore(mem, at, Stream(engine, Ctr, v, inbuf[..done]),
                Stream(engine, Ctr, FinalIv(engine, Ctr, v, inbuf[..done]), inbuf[done..done + n]));
        tempSector := tempSector + BUFFER_SECTORS;
      }
      assert inbuf[..SECTOR_BLOCKS * count] == inbuf;
      if (sector + fatStart) * 0x200 < W32 {
        StartBlockIff(sector + fatStart);
        CtrPut(engine, Counter(), mem, at, inbuf);
      }
    }

    /** One piece through the buffer; the counter goes on. */
    method WritePiece(at: nat, piece: seq<Block>, ctr: array<word>)
      requires Valid() && |piece| <= buffer.Length && at + |piece| <= nand.Length
      requires ctr.Length == 4 && ctr != nandCtr
      modifies nand, buffer, ctr
      ensures nand[..] == Put(old(nand[..]), at, Stream(engine, Ctr, old(Value(ctr[..], BE_NORMAL)), piece))
      ensures Value(ctr[..], BE_NORMAL) == FinalIv(engine, Ctr, old(Value(ctr[..], BE_NORMAL)), piece)
    {
      hide Put, Stream, Value, OneBlock, FinalIv;
      ghost var v, n := Value(ctr[..], BE_NORMAL), |piece|;
      forall i | 0 <= i < |piece| { buffer[i] := piece[i]; }
      ghost var loaded := buffer[..];
      assert buffer[0..n] == piece && ctr[..] == old(ctr[..]) && nand[..] == old(nand[..]);
      Aes(engine, Ctr, buffer, 0, buffer, 0, |piece|, ctr, BE_NORMAL);
      PutSlice(loaded, 0, Stream(engine, Ctr, v, piece));
      assert buffer[..n] == buffer[..][0..n];
      WriteSectors(at, |piece|);
    }
  }

  lemma PutTwice(mem: seq<Block>, at: nat, xs: seq<Block>, ys: seq<Block>)
    requires at + |xs| <= |mem| && |xs| == |ys|
    ensures Put(Put(mem, at, xs), at, ys) == Put(mem, at, ys)
  {
  }

  lemma PutSlice(mem: seq<Block>, at: nat, xs: seq<Block>)
    requires at + |xs| <= |mem|
    ensures Put(mem, at, xs)[at..at + |xs|] == xs
  {
  }

  /** Counter mode can start anywhere: a part of the stream is the stream of the part from its own counter. */
  lemma CtrSlice(e: Engine, v: nat, src: seq<Block>, at: nat, n: nat)
    requires v < W128 && at + n <= |src|
    ensures Stream(e, Ctr, v, src)[at..at + n] == Stream(e, Ctr, Plus128(v, at), src[at..at + n])
  {
    hide Stream, Xor, ToBlock, Plus128;
    var part := src[at..at + n];
    var left, right := Stream(e, Ctr, v, src)[at..at + n], Stream(e, Ctr, Plus128(v, at), part);
    forall j | 0 <= j < n
      ensures left[j] == right[j]
    {
      CtrBlock(e, v, src, at + j);
      CtrBlock(e, Plus128(v, at), part, j);
      ModTwice(v, at, j);
    }
  }

  /** Encrypting a part in place changes the plain view in that part only. */
  lemma CtrPut(e: Engine, v: nat, mem: seq<Block>, at: nat, xs: seq<Block>)
    requires v < W128 && at + |xs| <= |mem|
    ensures Stream(e, Ctr, v, Put(mem, at, Stream(e, Ctr, Plus128(v, at), xs)))
         == Put(Stream(e, Ctr, v, mem), at, xs)
  {
    hide Stream, Plus128, Put;
    var ys := Stream(e, Ctr, Plus128(v, at), xs);
    var after := Put(mem, at, ys);
    var left, right := Stream(e, Ctr, v, after), Put(Stream(e, Ctr, v, mem), at, xs);
    forall j | 0 <= j < |mem|
      ensures left[j] == right[j]
    {
      PutAt(mem, at, ys, j);
      PutAt(Stream(e, Ctr, v, mem), at, xs, j);
      if at <= j < at + |xs| {
        CtrPutAt(e, v, after, at, xs, j - at);
      } else {
        CtrSame(e, v, after, mem, j);
      }
    }
  }

  lemma PutAt(mem: seq<Block>, at: nat, xs: seq<Block>, j: nat)
    requires at + |xs| <= |mem| && j < |mem|
    ensures Put(mem, at, xs)[j] == if at <= j < at + |xs| then xs[j - at] else mem[j]
  {
  }

  lemma CtrPutAt(e: Engine, v: nat, after: seq<Block>, at: nat, xs: seq<Block>, k: nat)
    requires v < W128 && k < |xs| && at + |xs| <= |after|
    requires after[at + k] == Stream(e, Ctr, Plus128(v, at), xs)[k]
    ensures Stream(e, Ctr, v, after)[at + k] == xs[k]
  {
    hide Stream, Xor, ToBlock, Plus128;
    CtrBlock(e, Plus128(v, at), xs, k);
    CtrTwice(e, v, after, at, k, xs[k]);
  }

  /** A block that holds b under its number is b again. */
  lemma CtrTwice(e: Engine, v: nat, after: seq<Block>, at: nat, k: nat, b: Block)
    requires v < W128 && at + k < |after|
    requires after[at + k] == Xor(b, e.encrypt(ToBlock(Plus128(Plus128(v, at), k))))
    ensures Stream(e, Ctr, v, after)[at + k] == b
  {
    hide Stream, Xor, ToBlock, Plus128;
    CtrBlock(e, v, after, at + k);
    ModTwice(v, at, k);
    XorUndo(b, e.encrypt(ToBlock(Plus128(v, at + k))));
  }

  lemma CtrSame(e: Engine, v: nat, a: seq<Block>, b: seq<Block>, j: nat)
    requires v < W128 && j < |a| && j < |b| && a[j] == b[j]
    ensures Stream(e, Ctr, v, a)[j] == Stream(e, Ctr, v, b)[j]
  {
    hide Stream, Xor, ToBlock, Plus128;
    assert Stream(e, Ctr, v, a)[j] == Stream(e, Ctr, v, b)[j] by {
      CtrBlock(e, v, a, j);
      CtrBlock(e, v, b, j);
    }
  }

  /** Sectors of the system NAND read back after a write are the data written, for the range of the write or any part
      of it, while byte offsets stay below 2^32. */
  method WriteThenRead(d: CtrNand, sector: nat, inbuf: seq<Block>, count: nat, from: nat, part: nat, out: array<Block>)
    requires d.Valid() && !d.onSd && d.Inside(sector, count, d.nand.Length) && |inbuf| == SECTOR_BLOCKS * count
    requires from + part <= count && SECTOR_BLOCKS * part == out.Length
    requires out != d.nand && out != d.buffer && out != d.sd
    requires (sector + d.fatStart + from) * 0x200 < W32
    modifies d.nand, d.buffer, out
    ensures out[..] == inbuf[SECTOR_BLOCKS * from..SECTOR_BLOCKS * (from + part)]
  {
    hide Stream, Value, Put, FinalIv, OneBlock, StartBlock;
    ghost var before := d.Plain();
    d.Write(sector, count, inbuf);
    PutPart(before, SECTOR_BLOCKS * (sector + d.fatStart), inbuf, SECTOR_BLOCKS * from, out.Length);
    d.Read(sector + from, part, out);
    assert out[..] == out[..out.Length];
  }

  /** Decrypting a part under the number computed for its sector gives that part of the decrypted device. */
  lemma PlainView(e: Engine, v: nat, dev: seq<Block>, sector: nat, n: nat, mem: seq<Block>, after: seq<Block>)
    requires v < W128 && SECTOR_BLOCKS * sector + n <= |dev| && n <= |mem| && sector * 0x200 < W32
    requires after == Put(mem, 0, Stream(e, Ctr, Plus128(v, StartBlock(sector)),
                                         dev[SECTOR_BLOCKS * sector..SECTOR_BLOCKS * sector + n]))
    ensures after[..n] == Stream(e, Ctr, v, dev)[SECTOR_BLOCKS * sector..SECTOR_BLOCKS * sector + n]
  {
    hide Put, Stream, StartBlock, Plus128;
    StartBlockIff(sector);
    var at := SECTOR_BLOCKS * sector;
    CtrSlice(e, v, dev, at, n);
    PutSlice(mem, 0, Stream(e, Ctr, Plus128(v, at), dev[at..at + n]));
    assert after[..n] == after[0..n];
  }

  lemma PutPart(mem: seq<Block>, at: nat, xs: seq<Block>, from: nat, n: nat)
    requires at + |xs| <= |mem| && from + n <= |xs|
    ensures Put(mem, at, xs)[at + from..at + from + n] == xs[from..from + n]
  {
  }
}
