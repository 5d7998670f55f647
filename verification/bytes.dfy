/**
 * Bytes and 32-bit little-endian words, as the i386 kernel lays them out in
 * memory and as it reads ELF structures straight out of a file.
 */
module Bytes {

  type byte = b: int | 0 <= b < 256

  const WORD_LIMIT: int := 0x1_0000_0000

  /** The C types uint16_t and uint32_t. */
  type u16 = x: int | 0 <= x < 0x1_0000
  type u32 = x: int | 0 <= x < 0x1_0000_0000

  /** A run of `n` zero bytes (what memset(p, 0, n) leaves behind). */
  function Zeros(n: nat): (z: seq<byte>)
    ensures |z| == n
    ensures forall j | 0 <= j < n :: z[j] == 0
  {
    seq(n, _ => 0)
  }

  /** The unsigned 16-bit value stored little-endian at b[i], b[i+1]. */
  function U16At(b: seq<byte>, i: nat): (v: nat)
    requires i + 2 <= |b|
    ensures v < 0x1_0000
  {
    b[i] as int + 256 * (b[i + 1] as int)
  }

  /** The unsigned 32-bit value stored little-endian at b[i .. i+4]. */
  function U32At(b: seq<byte>, i: nat): (v: nat)
    requires i + 4 <= |b|
    ensures v < WORD_LIMIT
  {
    U16At(b, i) + 0x1_0000 * U16At(b, i + 2)
  }

  /** The four bytes an i386 store of the 32-bit word `w` writes, lowest address first. */
  function Word(w: nat): (b: seq<byte>)
    requires w < WORD_LIMIT
    ensures |b| == 4
  {
    [w % 256, (w / 256) % 256, (w / 0x1_0000) % 256, w / 0x100_0000]
  }

  /** Reading back a stored word gives the word: Word and U32At are inverse. */
  lemma WordRoundTrip(w: nat)
    requires w < WORD_LIMIT
    ensures U32At(Word(w), 0) == w
  {
    var b := Word(w);
    assert U16At(b, 0) == w % 0x1_0000;
    assert U16At(b, 2) == w / 0x1_0000;
  }

  /** The two bytes an i386 store of the 16-bit value `h` writes, lowest address first. */
  function Half(h: u16): (b: seq<byte>)
    ensures |b| == 2 && U16At(b, 0) == h
  {
    [h % 256, h / 256]
  }

  /** A value read at position i depends only on the four bytes there. */
  lemma U32AtSlice(s: seq<byte>, i: nat)
    requires i + 4 <= |s|
    ensures U32At(s, i) == U32At(s[i .. i + 4], 0)
  {
  }

  lemma U16AtSlice(s: seq<byte>, i: nat)
    requires i + 2 <= |s|
    ensures U16At(s, i) == U16At(s[i .. i + 2], 0)
  {
  }

  /** A word stored inside a longer byte string reads back at its position. */
  lemma WordAt(pre: seq<byte>, w: nat, post: seq<byte>)
    requires w < WORD_LIMIT
    ensures U32At(pre + Word(w) + post, |pre|) == w
  {
    var s := pre + Word(w) + post;
    var b := Word(w);
    assert s[|pre|..|pre| + 4] == b;
    assert s[|pre|] == b[0] && s[|pre| + 1] == b[1] && s[|pre| + 2] == b[2] && s[|pre| + 3] == b[3];
    WordRoundTrip(w);
  }

  /** Concatenation of a sequence of byte strings, first one lowest. */
  function Concat(parts: seq<seq<byte>>): (r: seq<byte>)
    decreases |parts|
  {
    if parts == [] then [] else Concat(parts[..|parts| - 1]) + parts[|parts| - 1]
  }

  lemma {:induction false} ConcatAppend(parts: seq<seq<byte>>, p: seq<byte>)
    ensures Concat(parts + [p]) == Concat(parts) + p
  {
    assert (parts + [p])[..|parts|] == parts;
  }

  lemma {:induction false} ConcatOfUniform(parts: seq<seq<byte>>, size: nat)
    requires forall k | 0 <= k < |parts| :: |parts[k]| == size
    ensures |Concat(parts)| == |parts| * size
  {
    if parts != [] {
      var init := parts[..|parts| - 1];
      ConcatOfUniform(init, size);
      assert |Concat(parts)| == |init| * size + size;
      assert (|init| + 1) * size == |init| * size + size;
    }
  }
}
