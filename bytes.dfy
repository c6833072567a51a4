/** Unsigned 32-bit words in little-endian byte order, as a `DataView`
    writes them with `setUint32(offset, value, true)` and reads them with
    `getUint32(offset, true)`. */
module Bytes {
  import opened Outcomes
  import opened Graph

  type Byte = b: int | 0 <= b < 0x100

  /** ToUint32 of section 7.1.7 of ECMA-262 on an integral number: the value
      modulo 2^32, so that -1 becomes 0xFFFFFFFF. */
  function ToUint32(x: int): (r: Word)
    ensures 0 <= x < 0x1_0000_0000 ==> r == x
    ensures (x - r) % 0x1_0000_0000 == 0
  {
    x % 0x1_0000_0000
  }

  lemma MinusOneIsAllOnes()
    ensures ToUint32(-1) == 0xFFFF_FFFF
  {
  }

  /** The four bytes of `x`, least significant first. */
  function U32LE(x: Word): (r: seq<Byte>)
    ensures |r| == 4
  {
    [x % 0x100, x / 0x100 % 0x100, x / 0x1_0000 % 0x100, x / 0x100_0000]
  }

  /** `getUint32(off, true)`: the word at `off`, or a `RangeError` when its
      four bytes are not all inside the data. */
  function ReadU32(data: seq<Byte>, off: nat): (r: Result<Word>)
    ensures r.Ok? <==> off + 4 <= |data|
    ensures r.Fail? ==> r.error == RangeError
  {
    if off + 4 <= |data| then
      Ok(data[off] as int + 0x100 * (data[off + 1] as int) + 0x1_0000 * (data[off + 2] as int) + 0x100_0000 * (data[off + 3] as int))
    else
      Fail(RangeError)
  }

  /** Reading back a written word gives the word. */
  lemma ReadU32LE(x: Word)
    ensures ReadU32(U32LE(x), 0) == Ok(x)
  {
    var b := U32LE(x);
    var a := x / 0x100;
    var c := a / 0x100;
    assert x == b[0] as int + 0x100 * a;
    assert a == b[1] as int + 0x100 * c;
    assert c == b[2] as int + 0x100 * (b[3] as int);
  }

  /** Distinct words are written as distinct bytes. */
  lemma U32LEInjective(x: Word, y: Word)
    ensures U32LE(x) == U32LE(y) ==> x == y
  {
    ReadU32LE(x);
    ReadU32LE(y);
  }

  /** Words written one after another. */
  function Le(words: seq<Word>): (r: seq<Byte>)
    ensures |r| == 4 * |words|
  {
    if words == [] then [] else U32LE(words[0]) + Le(words[1..])
  }

  lemma {:induction false} LeAppend(a: seq<Word>, b: seq<Word>)
    ensures Le(a + b) == Le(a) + Le(b)
    decreases |a|
  {
    if a == [] {
      assert a + b == b;
    } else {
      assert (a + b)[1..] == a[1..] + b;
      LeAppend(a[1..], b);
    }
  }

  /** A read depends only on the four bytes it covers. */
  lemma ReadU32Window(data: seq<Byte>, off: nat, bytes: seq<Byte>)
    requires off + 4 <= |data| && data[off..off + 4] == bytes
    ensures ReadU32(data, off) == ReadU32(bytes, 0)
  {
    assert data[off] == bytes[0] && data[off + 1] == bytes[1];
    assert data[off + 2] == bytes[2] && data[off + 3] == bytes[3];
  }

  /** The `i`-th word written after `pre` reads back at `|pre| + 4 * i`,
      whatever follows it. */
  lemma {:induction false} ReadLe(pre: seq<Byte>, words: seq<Word>, post: seq<Byte>, i: nat, off: nat)
    requires i < |words| && off == |pre| + 4 * i
    ensures ReadU32(pre + Le(words) + post, off) == Ok(words[i])
    decreases i
  {
    var data := pre + Le(words) + post;
    if i == 0 {
      assert data[off..off + 4] == U32LE(words[0]);
      ReadU32Window(data, off, U32LE(words[0]));
      ReadU32LE(words[0]);
    } else {
      var pre' := pre + U32LE(words[0]);
      assert data == pre' + Le(words[1..]) + post;
      ReadLe(pre', words[1..], post, i - 1, off);
    }
  }

  lemma LeSnoc(words: seq<Word>, w: Word)
    ensures Le(words + [w]) == Le(words) + U32LE(w)
  {
    LeAppend(words, [w]);
    assert Le([w]) == U32LE(w) + Le([]);
  }

  /** Bytes after `pre`, then the bytes of one more word: the bytes of a
      prefix one word longer. */
  lemma LePrefixStep(pre: seq<Byte>, words: seq<Word>, i: nat)
    requires i < |words|
    ensures pre + Le(words[..i]) + U32LE(words[i]) == pre + Le(words[..i + 1])
  {
    assert words[..i + 1] == words[..i] + [words[i]];
    LeSnoc(words[..i], words[i]);
  }

  /** Bytes after `pre`, then the bytes of more words. */
  lemma LeExtend(pre: seq<Byte>, a: seq<Word>, b: seq<Word>)
    ensures pre + Le(a) + Le(b) == pre + Le(a + b)
  {
    LeAppend(a, b);
  }

  /** `setUint32(off, x, true)` on a buffer the write fits in: the bytes
      `pre` before `off` are kept and the word's bytes follow them. */
  method PutU32(buf: array<Byte>, off: nat, x: Word, ghost pre: seq<Byte>)
    requires off + 4 <= buf.Length && buf[..off] == pre
    modifies buf
    ensures buf[..off + 4] == pre + U32LE(x)
  {
    buf[off] := x % 0x100;
    buf[off + 1] := x / 0x100 % 0x100;
    buf[off + 2] := x / 0x1_0000 % 0x100;
    buf[off + 3] := x / 0x100_0000;
    assert buf[..off] == old(buf[..off]);
  }
}
