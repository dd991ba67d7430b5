/** The backward LZSS decoder of compressed code sections, which works inside one buffer. */
module Lzss {
  import opened Machine

  // ----- the format

  /** A token and the position of the read cursor behind it. */
  datatype Token =
    | Literal(b: byte, at: nat)
    | Copy(count: nat, distance: nat, at: nat)

  function Size(t: Token): (n: nat)
    ensures t.Literal? ==> n == 1
  {
    if t.Literal? then 1 else t.count
  }

  function Prepend(t: Token, rest: Option<seq<Token>>): Option<seq<Token>> {
    if rest.None? then None else Some([t] + rest.value)
  }

  /** The tokens in src[stop..r], read downwards; flags holds the flags of the next `left` tokens, highest
      bit first. None when a token or the flags of a group cross the stop. */
  function Parse(src: seq<byte>, r: nat, stop: nat, flags: byte, left: nat): Option<seq<Token>>
    requires stop <= r <= |src|
    decreases r
  {
    if r == stop then Some([])
    else if left == 0 then
      if r - 1 == stop then None else ParseToken(src, r - 1, stop, src[r - 1], 8)
    else
      ParseToken(src, r, stop, flags, left)
  }

  function ParseToken(src: seq<byte>, r: nat, stop: nat, flags: byte, left: nat): Option<seq<Token>>
    requires stop < r <= |src| && 0 < left
    decreases r, 0
  {
    var flags' := flags * 2 % 0x100;
    if flags < 0x80 then
      Prepend(Literal(src[r - 1], r - 1), Parse(src, r - 1, stop, flags', left - 1))
    else if r - 2 < stop then None
    else
      Prepend(CopyToken(src[r - 1], src[r - 2], r - 2), Parse(src, r - 2, stop, flags', left - 1))
  }

  function Distance(high: byte, low: byte): (d: nat)
    ensures 3 <= d
  {
    (high as int) % 0x10 * 0x100 + low as int + 3
  }

  function Count(high: byte): (n: nat)
    ensures 3 <= n
  {
    high / 0x10 + 3
  }

  /** High nibble plus 3 bytes, from 12-bit offset plus 3 bytes further up. */
  function CopyToken(high: byte, low: byte, at: nat): Token {
    Copy(Count(high), Distance(high, low), at)
  }

  /** n bytes put one by one in front of out, each equal to the one `distance` bytes further up. */
  function CopyRun(out: seq<byte>, distance: nat, n: nat): (r: seq<byte>)
    requires 1 <= distance <= |out|
    ensures |r| == |out| + n
    decreases n
  {
    if n == 0 then out else CopyRun([out[distance - 1]] + out, distance, n - 1)
  }

  /** The bytes that tokens put in front of out; None when a copy reaches past what has been written. */
  function Expand(tokens: seq<Token>, out: seq<byte>): Option<seq<byte>>
    decreases |tokens|
  {
    if tokens == [] then Some(out)
    else
      match tokens[0]
      case Literal(b, _) => Expand(tokens[1..], [b] + out)
      case Copy(count, distance, _) =>
        if 1 <= distance <= |out| then Expand(tokens[1..], CopyRun(out, distance, count)) else None
  }

  /** The write cursor w stays at or above the read cursor behind every token. */
  predicate KeepsAhead(tokens: seq<Token>, w: nat)
    decreases |tokens|
  {
    tokens == [] || (Size(tokens[0]) + tokens[0].at <= w && KeepsAhead(tokens[1..], w - Size(tokens[0])))
  }

  /** What a run of copies means: every new byte equals the one `distance` further up, and out follows. */
  lemma {:induction false} CopyRunMeaning(out: seq<byte>, distance: nat, n: nat)
    requires 1 <= distance <= |out|
    ensures var r := CopyRun(out, distance, n);
            r[n..] == out && forall k :: 0 <= k < n ==> r[k] == r[k + distance]
    decreases n
  {
    if n > 0 {
      var one := [out[distance - 1]] + out;
      var r := CopyRun(out, distance, n);
      CopyRunMeaning(one, distance, n - 1);
      assert r[n - 1] == r[n - 1..][0];
      assert r[n..] == r[n - 1..][1..];
      assert r[n - 1 + distance] == r[n..][distance - 1];
    }
  }

  // ----- the decoder

  function ReadStart(src: seq<byte>, end: nat): int
    requires 8 <= end <= |src|
  {
    end - LdDword(src, end - 8) / 0x100_0000
  }

  function ReadStop(src: seq<byte>, end: nat): int
    requires 8 <= end <= |src|
  {
    end - LdDword(src, end - 8) % 0x100_0000
  }

  function WriteStart(src: seq<byte>, end: nat): nat
    requires 8 <= end <= |src|
  {
    end + LdDword(src, end - 4)
  }

  /** The footer in front of end describes a stream inside the buffer that decodes to out, with the write
      cursor never below the read cursor. */
  ghost predicate WellFormed(src: seq<byte>, end: nat, out: seq<byte>) {
    && 8 <= end <= |src|
    && 0 <= ReadStop(src, end) <= ReadStart(src, end)
    && WriteStart(src, end) <= |src|
    && var tokens := Parse(src, ReadStart(src, end), ReadStop(src, end), 0, 0);
       tokens.Some? && KeepsAhead(tokens.value, WriteStart(src, end)) && Expand(tokens.value, []) == Some(out)
  }

  /** Stores in place a run of copies in front of the write cursor. */
  method CopyDown(buf: array<byte>, w0: nat, ghost top: nat, distance: nat, high: byte) returns (w: nat)
    requires top <= buf.Length && Count(high) <= w0 <= top && 1 <= distance <= top - w0
    modifies buf
    ensures w == w0 - Count(high)
    ensures buf[..w] == old(buf[..w]) && buf[top..] == old(buf[top..])
    ensures buf[w..top] == CopyRun(old(buf[w0..top]), distance, Count(high))
  {
    w := w0;
    var v16: int := high + 32;
    ghost var left: int := Count(high);
    ghost var goal := CopyRun(buf[w0..top], distance, left);
    while true
      invariant 1 <= left <= w <= w0 && w - left == w0 - Count(high)
      invariant v16 == high % 0x10 + 16 * (left - 1)
      invariant buf[..w] == old(buf[..w]) && buf[top..] == old(buf[top..])
      invariant goal == CopyRun(buf[w..top], distance, left)
      decreases left
    {
      ghost var out := buf[w..top];
      buf[w - 1] := buf[w + distance - 1];
      w := w - 1;
      assert buf[w..top] == [out[distance - 1]] + out;
      left := left - 1;
      v16 := v16 - 16;
      if v16 < 0 { break; }
    }
  }

  /** What is still to be decoded when the cursors stand at r and w. */
  ghost predicate Pending(src: seq<byte>, r: nat, stop: nat, flags: byte, left: nat,
                          w: nat, done: seq<byte>, out: seq<byte>)
    requires stop <= r <= |src|
  {
    var tokens := Parse(src, r, stop, flags, left);
    && tokens.Some?
    && r <= w
    && KeepsAhead(tokens.value, w)
    && Expand(tokens.value, done) == Some(out)
  }

  lemma PendingFlags(src: seq<byte>, r: nat, stop: nat, flags: byte, w: nat, done: seq<byte>, out: seq<byte>)
    requires stop < r <= |src| && Pending(src, r, stop, flags, 0, w, done, out)
    ensures r <= w && stop < r - 1 && Pending(src, r - 1, stop, src[r - 1], 8, w, done, out)
  {
  }

  lemma PendingLiteral(src: seq<byte>, r: nat, stop: nat, flags: byte, left: nat,
                       w: nat, done: seq<byte>, out: seq<byte>)
    requires stop < r <= |src| && 0 < left && flags < 0x80 && Pending(src, r, stop, flags, left, w, done, out)
    ensures r - 1 <= w - 1
    ensures Pending(src, r - 1, stop, flags * 2 % 0x100, left - 1, w - 1, [src[r - 1]] + done, out)
  {
    var rest := Parse(src, r - 1, stop, flags * 2 % 0x100, left - 1);
    assert Parse(src, r, stop, flags, left) == Prepend(Literal(src[r - 1], r - 1), rest);
    assert ([Literal(src[r - 1], r - 1)] + rest.value)[1..] == rest.value;
  }

  lemma PendingCopy(src: seq<byte>, r: nat, stop: nat, flags: byte, left: nat, w: nat, done: seq<byte>, out: seq<byte>)
    requires stop < r <= |src| && 0 < left && flags >= 0x80 && Pending(src, r, stop, flags, left, w, done, out)
    ensures stop <= r - 2
    ensures var t := CopyToken(src[r - 1], src[r - 2], r - 2);
            && 1 <= t.distance <= |done| && r - 2 <= w - t.count
            && Pending(src, r - 2, stop, flags * 2 % 0x100, left - 1, w - t.count,
                       CopyRun(done, t.distance, t.count), out)
  {
    hide Distance;
    hide Count;
    hide CopyRun;
    assert Parse(src, r, stop, flags, left) == ParseToken(src, r, stop, flags, left);
    var rest := Parse(src, r - 2, stop, flags * 2 % 0x100, left - 1);
    var t := CopyToken(src[r - 1], src[r - 2], r - 2);
    assert Parse(src, r, stop, flags, left) == Prepend(t, rest);
    assert ([t] + rest.value)[1..] == rest.value;
  }

  lemma Begin(src: seq<byte>, end: nat, out: seq<byte>)
    requires WellFormed(src, end, out)
    ensures Pending(src, ReadStart(src, end), ReadStop(src, end), 0, 0, WriteStart(src, end), [], out)
  {
  }

  /** The decoder. On a well-formed stream the bytes written are exactly the functional decoding of the
      bytes that were in the buffer before, although the one overwrites the other. */
  method Decompress(buf: array<byte>, end: nat, ghost out: seq<byte>) returns (ghost w: nat)
    requires end <= buf.Length && WellFormed(buf[..], end, out)
    modifies buf
    ensures var top := WriteStart(old(buf[..]), end);
            w + |out| == top && buf[..] == old(buf[..])[..w] + out + old(buf[..])[top..]
  {
    hide Parse, ParseToken, KeepsAhead, Expand, Pending, LdDword;
    Begin(buf[..], end, out);
    ghost var src := buf[..];
    var v1 := LdDword(buf[..], end - 8);
    var v2: nat := end + LdDword(buf[..], end - 4);
    var v3: nat := end - v1 / 0x100_0000;
    var v4: nat := end - v1 % 0x100_0000;
    ghost var top := v2;
    var flags: byte := 0;
    assert buf[v2..top] == [];
    while v3 > v4
      invariant v4 <= v3 <= |src| && v2 <= top && buf.Length == |src|
      invariant Pending(src, v3, v4, flags, 0, v2, buf[v2..top], out)
      invariant buf[..v2] == src[..v2] && buf[top..] == src[top..]
      decreases v3
    {
      PendingFlags(src, v3, v4, flags, v2, buf[v2..top], out);
      assert buf[v3 - 1] == buf[..v2][v3 - 1] == src[v3 - 1];
      v3, flags := v3 - 1, buf[v3 - 1];
      var v7 := 8;
      ghost var v3' := v3;
      while true
        invariant v4 <= v3 <= v3' && v2 <= top && 0 <= v7 <= 8 && (v7 > 0 ==> v4 < v3)
        invariant Pending(src, v3, v4, flags, v7, v2, buf[v2..top], out)
        invariant buf[..v2] == src[..v2] && buf[top..] == src[top..]
        decreases v7
      {
        if v7 < 1 { break; }
        v3, v2 := Step(buf, v3, v4, flags, v7, v2, src, top, out);
        v7 := v7 - 1;
        flags := flags * 2 % 0x100;
        if v3 <= v4 {
          Finish(buf, v3, v4, flags, v7, v2, src, top, out);
          return v2;
        }
      }
    }
    Finish(buf, v3, v4, flags, 0, v2, src, top, out);
    w := v2;
  }

  lemma Finish(buf: array<byte>, r: nat, stop: nat, flags: byte, left: nat, w: nat,
               src: seq<byte>, top: nat, out: seq<byte>)
    requires r == stop <= |src| && w <= top <= buf.Length == |src|
    requires Pending(src, r, stop, flags, left, w, buf[w..top], out)
    requires buf[..w] == src[..w] && buf[top..] == src[top..]
    ensures w + |out| == top && buf[..] == src[..w] + out + src[top..]
  {
    assert buf[..] == buf[..w] + buf[w..top] + buf[top..];
  }

  /** One token: a byte, or a run of copies. */
  method Step(buf: array<byte>, r: nat, stop: nat, flags: byte, left: nat, w: nat,
              ghost src: seq<byte>, ghost top: nat, ghost out: seq<byte>) returns (r': nat, w': nat)
    requires stop < r <= |src| == buf.Length && w <= top <= buf.Length && 0 < left
    requires Pending(src, r, stop, flags, left, w, buf[w..top], out)
    requires buf[..w] == src[..w] && buf[top..] == src[top..]
    modifies buf
    ensures stop <= r' < r && w' <= top
    ensures Pending(src, r', stop, flags * 2 % 0x100, left - 1, w', buf[w'..top], out)
    ensures buf[..w'] == src[..w'] && buf[top..] == src[top..]
  {
    if flags >= 0x80 {
      r', w' := StepCopy(buf, r, stop, flags, left, w, src, top, out);
    } else {
      r', w' := StepLiteral(buf, r, stop, flags, left, w, src, top, out);
    }
  }

  method StepCopy(buf: array<byte>, r: nat, stop: nat, flags: byte, ghost left: nat, w: nat,
                  ghost src: seq<byte>, ghost top: nat, ghost out: seq<byte>) returns (r': nat, w': nat)
    requires stop < r <= |src| == buf.Length && w <= top <= buf.Length && 0 < left && flags >= 0x80
    requires Pending(src, r, stop, flags, left, w, buf[w..top], out)
    requires buf[..w] == src[..w] && buf[top..] == src[top..]
    modifies buf
    ensures stop <= r' < r && w' <= top
    ensures Pending(src, r', stop, flags * 2 % 0x100, left - 1, w', buf[w'..top], out)
    ensures buf[..w'] == src[..w'] && buf[top..] == src[top..]
  {
    hide Parse;
    hide KeepsAhead;
    hide Expand;
    hide Distance;
    hide Count;
    hide CopyRun;
    assert r <= w && forall k :: 0 <= k < r ==> buf[k] == buf[..w][k] == src[k];
    PendingCopy(src, r, stop, flags, left, w, buf[w..top], out);
    hide Pending;
    var high, low := buf[r - 1], buf[r - 2];
    r' := r - 2;
    w' := CopyDown(buf, w, top, Distance(high, low), high);
    assert forall k :: 0 <= k < w' ==> buf[k] == buf[..w'][k] == src[..w][k];
  }

  method StepLiteral(buf: array<byte>, r: nat, stop: nat, flags: byte, ghost left: nat, w: nat,
                     ghost src: seq<byte>, ghost top: nat, ghost out: seq<byte>) returns (r': nat, w': nat)
    requires stop < r <= |src| == buf.Length && w <= top <= buf.Length && 0 < left && flags < 0x80
    requires Pending(src, r, stop, flags, left, w, buf[w..top], out)
    requires buf[..w] == src[..w] && buf[top..] == src[top..]
    modifies buf
    ensures stop <= r' < r && w' <= top
    ensures Pending(src, r', stop, flags * 2 % 0x100, left - 1, w', buf[w'..top], out)
    ensures buf[..w'] == src[..w'] && buf[top..] == src[top..]
  {
    hide Parse;
    hide KeepsAhead;
    hide Expand;
    assert r <= w && forall k :: 0 <= k < r ==> buf[k] == buf[..w][k] == src[k];
    PendingLiteral(src, r, stop, flags, left, w, buf[w..top], out);
    ghost var done := buf[w..top];
    r', w' := r - 1, w - 1;
    buf[w - 1] := buf[r - 1];
    assert buf[w - 1..top] == [src[r - 1]] + done;
  }

  // ----- an encoder, and what becomes of its streams

  /** What a compressor emits: a byte, or n bytes equal to those d bytes further up. */
  datatype Op = Lit(b: byte) | Rep(n: nat, d: nat)

  predicate Encodable(ops: seq<Op>) {
    forall i :: 0 <= i < |ops| && ops[i].Rep? ==> 3 <= ops[i].n <= 18 && 3 <= ops[i].d <= 0x1002
  }

  function Length(op: Op): nat {
    if op.Lit? then 1 else op.n
  }

  /** The bytes ops stand for, in front of out; None when a repetition reaches past what is there. */
  function Unpack(ops: seq<Op>, out: seq<byte>): Option<seq<byte>>
    decreases |ops|
  {
    if ops == [] then Some(out)
    else
      match ops[0]
      case Lit(b) => Unpack(ops[1..], [b] + out)
      case Rep(n, d) => if 1 <= d <= |out| then Unpack(ops[1..], CopyRun(out, d, n)) else None
  }

  function Bit(ops: seq<Op>, i: nat): nat {
    if i < |ops| && ops[i].Rep? then 1 else 0
  }

  /** The flags of eight ops in one byte, the first one highest. */
  function FlagByte(ops: seq<Op>): byte {
    0x80 * Bit(ops, 0) + 0x40 * Bit(ops, 1) + 0x20 * Bit(ops, 2) + 0x10 * Bit(ops, 3)
    + 8 * Bit(ops, 4) + 4 * Bit(ops, 5) + 2 * Bit(ops, 6) + Bit(ops, 7)
  }

  /** A repetition is a word, its low byte first: the count less 3 in the top four bits, the distance less 3
      in the others. */
  function OpBytes(op: Op): (b: seq<byte>)
    requires Encodable([op])
    ensures |b| == if op.Lit? then 1 else 2
  {
    match op
    case Lit(b) => [b]
    case Rep(n, d) =>
      assert [op][0].Rep?;
      var w := (n - 3) * 0x1000 + (d - 3);
      [w % 0x100, w / 0x100]
  }

  /** The stream of ops, which is read from its end down; the flags of `left` more ops have been read. */
  function Stream(ops: seq<Op>, left: nat): seq<byte>
    requires Encodable(ops)
    decreases |ops|, if left == 0 then 1 else 0
  {
    if ops == [] then []
    else if left == 0 then Stream(ops, 8) + [FlagByte(ops)]
    else
      assert [ops[0]][0] == ops[0];
      Stream(ops[1..], left - 1) + OpBytes(ops[0])
  }

  function Word32(v: nat): (b: seq<byte>)
    ensures |b| == 4
  {
    [v % 0x100, v / 0x100 % 0x100, v / 0x1_0000 % 0x100, v / 0x100_0000 % 0x100]
  }

  /** A buffer with a compressed section: the stream behind `pre`, padding, how far down the stream begins and
      ends, how much longer the section gets, and the space for that. */
  function Image(pre: seq<byte>, ops: seq<Op>, pad: seq<byte>, space: seq<byte>): seq<byte>
    requires Encodable(ops)
  {
    var footer := |pad| + 8;
    pre + Stream(ops, 0) + pad
    + Word32(|Stream(ops, 0)| + footer + 0x100_0000 * footer) + Word32(|space|) + space
  }

  function EndOf(pre: seq<byte>, ops: seq<Op>, pad: seq<byte>): nat
    requires Encodable(ops)
  {
    |pre| + |Stream(ops, 0)| + |pad| + 8
  }

  /** In the room above the end of the stream, what is written never runs into what is still to be read. */
  predicate Lead(ops: seq<Op>, left: nat, room: nat)
    requires Encodable(ops)
    decreases |ops|
  {
    ops == []
    || var rest := (if left == 0 then 8 else left) - 1;
       && Length(ops[0]) + |Stream(ops[1..], rest)| <= room
       && Lead(ops[1..], rest, room - Length(ops[0]))
  }

  /** The first `left` flags of ops, as they stand in the register of the decoder. */
  function Register(ops: seq<Op>, left: nat): byte {
    0x80 * (if left > 0 then Bit(ops, 0) else 0) + 0x40 * (if left > 1 then Bit(ops, 1) else 0)
    + 0x20 * (if left > 2 then Bit(ops, 2) else 0) + 0x10 * (if left > 3 then Bit(ops, 3) else 0)
    + 8 * (if left > 4 then Bit(ops, 4) else 0) + 4 * (if left > 5 then Bit(ops, 5) else 0)
    + 2 * (if left > 6 then Bit(ops, 6) else 0) + (if left > 7 then Bit(ops, 7) else 0)
  }

  lemma RegisterShifts(ops: seq<Op>, left: nat)
    requires ops != [] && 0 < left <= 8
    ensures Register(ops, left) * 2 % 0x100 == Register(ops[1..], left - 1)
    ensures ops[0].Rep? <==> Register(ops, left) >= 0x80
  {
    assert forall i: nat :: Bit(ops[1..], i) == Bit(ops, i + 1);
    var r: nat, t: nat := Register(ops, left), Register(ops[1..], left - 1);
    assert r * 2 == t + 0x100 * Bit(ops, 0);
  }

  lemma WordOfRep(n: nat, d: nat)
    requires 3 <= n <= 18 && 3 <= d <= 0x1002
    ensures var b := OpBytes(Rep(n, d));
            Count(b[1]) == n && Distance(b[1], b[0]) == d
  {
    var m, e := n - 3, d - 3;
    var w := m * 0x1000 + e;
    assert w / 0x100 == m * 0x10 + e / 0x100 && w % 0x100 == e % 0x100;
    assert e / 0x100 < 0x10;
  }

  lemma Cut(src: seq<byte>, r: nat, stop: nat, front: seq<byte>, last: seq<byte>)
    requires stop <= r <= |src| && src[stop..r] == front + last
    ensures stop <= r - |last| && src[stop..r - |last|] == front
    ensures forall i :: 0 <= i < |last| ==> src[r - |last| + i] == last[i]
  {
    var all, n := src[stop..r], |front|;
    assert |all| == n + |last|;
    assert src[stop..stop + n] == all[..n];
    forall i | 0 <= i < |last|
      ensures src[r - |last| + i] == last[i]
    {
      assert all[n + i] == last[i];
    }
  }

  lemma FlagsOfStream(src: seq<byte>, r: nat, stop: nat, ops: seq<Op>)
    requires stop <= r <= |src| && Encodable(ops) && ops != [] && src[stop..r] == Stream(ops, 0)
    ensures stop < r && src[stop..r - 1] == Stream(ops, 8) && src[r - 1] == FlagByte(ops)
  {
    hide OpBytes, FlagByte;
    Cut(src, r, stop, Stream(ops, 8), [FlagByte(ops)]);
  }

  lemma OpOfStream(src: seq<byte>, r: nat, stop: nat, left: nat, ops: seq<Op>)
    requires stop <= r <= |src| && 0 < left && Encodable(ops) && ops != [] && src[stop..r] == Stream(ops, left)
    ensures Encodable(ops[1..]) && Encodable([ops[0]])
    ensures var first := OpBytes(ops[0]);
            && stop <= r - |first| && src[stop..r - |first|] == Stream(ops[1..], left - 1)
            && src[r - |first|] == first[0] && src[r - 1] == first[|first| - 1]
  {
    assert Encodable([ops[0]]) by { assert [ops[0]][0] == ops[0]; }
    hide OpBytes, FlagByte;
    Cut(src, r, stop, Stream(ops[1..], left - 1), OpBytes(ops[0]));
  }

  /** The decoder takes a stream apart into the ops it was made of. */
  lemma {:induction false} StreamIsPending(src: seq<byte>, r: nat, stop: nat, flags: byte, left: nat, w: nat,
                                           done: seq<byte>, ops: seq<Op>, out: seq<byte>)
    requires stop <= r <= |src| && stop <= w && left <= 8 && Encodable(ops)
    requires src[stop..r] == Stream(ops, left) && (left > 0 ==> flags == Register(ops, left))
    requires Unpack(ops, done) == Some(out) && Lead(ops, left, w - stop)
    ensures var tokens := Parse(src, r, stop, flags, left);
            tokens.Some? && KeepsAhead(tokens.value, w) && Expand(tokens.value, done) == Some(out)
    decreases |ops|, if left == 0 then 2 else 1
  {
    hide CopyRun, Register, Count, Distance;
    if ops == [] {
      assert r == stop;
    } else if left == 0 {
      FlagsOfStream(src, r, stop, ops);
      FlagsLoaded(ops);
      StreamIsPending(src, r - 1, stop, src[r - 1], 8, w, done, ops, out);
    } else {
      OpIsPending(src, r, stop, flags, left, w, done, ops, out);
    }
  }

  lemma FlagsLoaded(ops: seq<Op>)
    ensures FlagByte(ops) == Register(ops, 8)
  {
  }

  lemma OpIsPending(src: seq<byte>, r: nat, stop: nat, flags: byte, left: nat, w: nat,
                    done: seq<byte>, ops: seq<Op>, out: seq<byte>)
    requires stop <= r <= |src| && stop <= w && 0 < left <= 8 && Encodable(ops) && ops != []
    requires src[stop..r] == Stream(ops, left) && flags == Register(ops, left)
    requires Unpack(ops, done) == Some(out) && Lead(ops, left, w - stop)
    ensures var tokens := Parse(src, r, stop, flags, left);
            tokens.Some? && KeepsAhead(tokens.value, w) && Expand(tokens.value, done) == Some(out)
    decreases |ops|, 0
  {
    hide CopyRun, Register, Count, Distance, Stream, OpBytes;
    OpOfStream(src, r, stop, left, ops);
    RegisterShifts(ops, left);
    var flags' := flags * 2 % 0x100;
    match ops[0] {
      case Lit(b) =>
        StreamIsPending(src, r - 1, stop, flags', left - 1, w - 1, [b] + done, ops[1..], out);
        OneByte(b);
        var rest := Parse(src, r - 1, stop, flags', left - 1);
        assert Parse(src, r, stop, flags, left) == Prepend(Literal(b, r - 1), rest);
        assert ([Literal(b, r - 1)] + rest.value)[1..] == rest.value;
      case Rep(n, d) =>
        WordOfRep(n, d);
        StreamIsPending(src, r - 2, stop, flags', left - 1, w - n, CopyRun(done, d, n), ops[1..], out);
        var t := CopyToken(src[r - 1], src[r - 2], r - 2);
        var rest := Parse(src, r - 2, stop, flags', left - 1);
        assert Parse(src, r, stop, flags, left) == Prepend(t, rest);
        assert ([t] + rest.value)[1..] == rest.value;
    }
  }

  lemma OneByte(b: byte)
    ensures Encodable([Lit(b)]) && OpBytes(Lit(b)) == [b]
  {
  }

  lemma FourDigits(v: nat)
    requires v < 0x1_0000_0000
    ensures v == v % 0x100 + 0x100 * (v / 0x100 % 0x100) + 0x1_0000 * (v / 0x1_0000 % 0x100)
                 + 0x100_0000 * (v / 0x100_0000 % 0x100)
  {
    var v1 := v / 0x100;
    var v2 := v1 / 0x100;
    assert v / 0x1_0000 == v2 && v / 0x100_0000 == v2 / 0x100;
    assert v2 / 0x100 < 0x100;
  }

  lemma WordLoads(src: seq<byte>, i: nat, v: nat)
    requires i + 4 <= |src| && src[i..i + 4] == Word32(v) && v < 0x1_0000_0000
    ensures LdDword(src, i) == v
  {
    FourDigits(v);
    var b := src[i..i + 4];
    assert src[i] == b[0] && src[i + 1] == b[1] && src[i + 2] == b[2] && src[i + 3] == b[3];
  }

  lemma FooterFields(body: nat, footer: nat)
    requires footer < 0x100 && body < 0x100_0000
    ensures (body + 0x100_0000 * footer) / 0x100_0000 == footer
    ensures (body + 0x100_0000 * footer) % 0x100_0000 == body
  {
  }

  /** Where the parts of an image stand in a buffer. */
  lemma ImageParts(src: seq<byte>, pre: seq<byte>, ops: seq<Op>, pad: seq<byte>, space: seq<byte>)
    requires Encodable(ops) && Image(pre, ops, pad, space) <= src
    ensures var a, end := |pre|, EndOf(pre, ops, pad);
            && 8 <= end && end + |space| == |Image(pre, ops, pad, space)| <= |src|
            && a + |Stream(ops, 0)| == end - |pad| - 8
            && src[a..end - |pad| - 8] == Stream(ops, 0)
            && src[end - 8..end - 4] == Word32(end - a + 0x100_0000 * (|pad| + 8))
            && src[end - 4..end] == Word32(|space|)
  {
    hide Stream, Word32;
    var a, end, m := |pre|, EndOf(pre, ops, pad), Image(pre, ops, pad, space);
    assert src[..|m|] == m;
    assert src[a..end - |pad| - 8] == m[a..end - |pad| - 8];
    assert src[end - 8..end - 4] == m[end - 8..end - 4];
    assert src[end - 4..end] == m[end - 4..end];
  }

  lemma FooterOfImage(src: seq<byte>, a: nat, end: nat, footer: nat, space: nat)
    requires 8 <= footer < 0x100 && a + footer <= end <= |src| && end - a < 0x100_0000 && space < 0x1_0000_0000
    requires src[end - 8..end - 4] == Word32(end - a + 0x100_0000 * footer)
    requires src[end - 4..end] == Word32(space)
    ensures ReadStop(src, end) == a && ReadStart(src, end) == end - footer && WriteStart(src, end) == end + space
  {
    hide Word32, LdDword;
    FooterFields(end - a, footer);
    WordLoads(src, end - 8, end - a + 0x100_0000 * footer);
    WordLoads(src, end - 4, space);
  }

  /** The footer of an image leads the decoder to its stream, whatever the buffer holds elsewhere. */
  lemma ImageIsWellFormed(src: seq<byte>, pre: seq<byte>, ops: seq<Op>, pad: seq<byte>, space: seq<byte>,
                          out: seq<byte>)
    requires Encodable(ops) && Image(pre, ops, pad, space) <= src
    requires |pad| + 8 < 0x100 && |Stream(ops, 0)| + |pad| + 8 < 0x100_0000 && |space| < 0x1_0000_0000
    requires Unpack(ops, []) == Some(out) && Lead(ops, 0, |Image(pre, ops, pad, space)| - |pre|)
    ensures var end := EndOf(pre, ops, pad);
            && WellFormed(src, end, out) && ReadStop(src, end) == |pre|
            && ReadStart(src, end) == |pre| + |Stream(ops, 0)|
            && WriteStart(src, end) == |Image(pre, ops, pad, space)|
  {
    hide Stream, Word32, Lead, Parse, ParseToken, KeepsAhead, Expand, Image, Unpack, ReadStop, ReadStart, WriteStart;
    ImageParts(src, pre, ops, pad, space);
    var a, end := |pre|, EndOf(pre, ops, pad);
    FooterOfImage(src, a, end, |pad| + 8, |space|);
    StreamIsPending(src, end - |pad| - 8, a, 0, 0, end + |space|, [], ops, out);
  }

  /** Decompressing the encoding of any ops in place gives what those ops stand for, ending where the space
      behind the section ends, and touches nothing else. */
  method DecompressImage(buf: array<byte>, ghost pre: seq<byte>, ghost ops: seq<Op>, ghost pad: seq<byte>,
                         ghost space: seq<byte>, end: nat, ghost out: seq<byte>)
    requires Encodable(ops) && Image(pre, ops, pad, space) <= buf[..] && end == EndOf(pre, ops, pad)
    requires |pad| + 8 < 0x100 && |Stream(ops, 0)| + |pad| + 8 < 0x100_0000 && |space| < 0x1_0000_0000
    requires Unpack(ops, []) == Some(out) && Lead(ops, 0, |Image(pre, ops, pad, space)| - |pre|)
    modifies buf
    ensures var top := |Image(pre, ops, pad, space)|;
            |out| <= top && buf[..] == old(buf[..])[..top - |out|] + out + old(buf[..])[top..]
  {
    hide WellFormed, ReadStart, ReadStop, WriteStart, Lead, Stream, Unpack;
    ImageIsWellFormed(buf[..], pre, ops, pad, space, out);
    ImageParts(buf[..], pre, ops, pad, space);
    hide Image;
    ghost var w := Decompress(buf, end, out);
  }
}
