/**
 * The cache store: one flat byte buffer of 2^s sets of E lines, each line
 * ten bytes long (8 tag bytes, least significant first, then the valid
 * byte, then the recency byte). This module gives the geometry, the tag
 * codec and the byte-level writes, as functions on the buffer's contents.
 */
module Layout {
  import opened Bits

  /** Bytes per line: (64 + 8 + 8) bits >> 3. */
  const LineBytes: nat := 10
  const TagBytes: nat := 8
  const ValidOffset: nat := 8
  const RefsOffset: nat := 9

  // ---------------------------------------------------------------------
  // Geometry

  /** What the simulator needs of its configuration: at least one line per
      set, shifts `1 << s`, `1 << b` and `1 << (s + b)` defined on a 32-bit
      int, and a buffer size that fits the 32-bit computation. */
  predicate ConfigOk(s: nat, E: nat, b: nat)
  {
    1 <= E && s + b <= 30 && 80 * E * Pow2(s) < U32_MOD
  }

  /** The buffer size computed in 32-bit unsigned arithmetic: linebits * E * 2^s, then >> 3. */
  function CacheBytes(s: nat, E: nat): (r: nat)
    requires 80 * E * Pow2(s) < U32_MOD
    ensures r == LineBytes * E * Pow2(s)
  {
    var linebits := 64 + 8 + 8;
    var w, p := linebits * E, Pow2(s);
    MulMonotone(1, p, w);
    MulAssociates(8, LineBytes * E, p);
    DivModUnique(w, U32_MOD, 0, w);
    DivModUnique(w * p, U32_MOD, 0, w * p);
    DivModUnique(w * p, 8, LineBytes * E * p, 0);
    ((w % U32_MOD) * p) % U32_MOD / 8
  }

  /** Offset of the first byte of set `setIndex`. */
  function SetBase(E: nat, setIndex: nat): nat
  {
    setIndex * (LineBytes * E)
  }

  /** Offset of line `slot` of set `setIndex`. */
  function LineStart(E: nat, setIndex: nat, slot: nat): nat
  {
    SetBase(E, setIndex) + LineBytes * slot
  }

  /** The whole set lies inside a buffer of `n` bytes. */
  predicate SetInBounds(n: nat, E: nat, setIndex: nat)
  {
    1 <= E && SetBase(E, setIndex) + LineBytes * E <= n
  }

  /** `p` is the first byte of one of the lines of the set. */
  predicate IsLineOf(E: nat, setIndex: nat, p: nat)
  {
    SetBase(E, setIndex) <= p < SetBase(E, setIndex) + LineBytes * E &&
    (p - SetBase(E, setIndex)) % LineBytes == 0
  }

  /** `k` is the recency byte of one of the lines of the set. */
  predicate IsRefsByte(E: nat, setIndex: nat, k: nat)
  {
    SetBase(E, setIndex) <= k < SetBase(E, setIndex) + LineBytes * E &&
    (k - SetBase(E, setIndex)) % LineBytes == RefsOffset
  }

  /** Every set index below 2^s addresses a set inside the buffer. */
  lemma SetFits(s: nat, E: nat, b: nat, setIndex: nat)
    requires ConfigOk(s, E, b) && setIndex < Pow2(s)
    ensures SetInBounds(CacheBytes(s, E), E, setIndex)
  {
    var line := LineBytes * E;
    assert SetBase(E, setIndex) + line == (setIndex + 1) * line;
    MulMonotone(setIndex + 1, Pow2(s), line);
    assert Pow2(s) * line == LineBytes * E * Pow2(s);
  }

  /** Within line `i` of the set, the recency byte is the byte at offset 9 and no other. */
  lemma RefsByteOfLine(E: nat, setIndex: nat, i: nat, k: nat)
    requires i < E
    requires LineStart(E, setIndex, i) <= k < LineStart(E, setIndex, i) + LineBytes
    ensures IsRefsByte(E, setIndex, k) <==> k == LineStart(E, setIndex, i) + RefsOffset
  {
    var d := k - LineStart(E, setIndex, i);
    DivModUnique(k - SetBase(E, setIndex), LineBytes, i, d);
  }

  /** Line `slot` of a set is one of its lines. */
  lemma LineStartIsLine(E: nat, setIndex: nat, slot: nat)
    requires slot < E
    ensures IsLineOf(E, setIndex, LineStart(E, setIndex, slot))
  {
    assert (LineBytes * slot) % LineBytes == 0;
  }

  // ---------------------------------------------------------------------
  // Tag codec

  /** Byte k of a tag: (tag >> 8k) & 0xFF. */
  function TagByte(tag: nat, k: nat): u8
  {
    (tag / Pow2(8 * k)) % 256
  }

  /** The eight tag bytes of a line holding `tag`, least significant first. */
  function EncodeTag(tag: u64): seq<u8>
  {
    seq(TagBytes, k requires 0 <= k => TagByte(tag, k))
  }

  /** The unsigned value of bytes stored least significant first. */
  function LittleEndian(bs: seq<u8>): (r: nat)
    ensures r < Pow2(8 * |bs|)
  {
    if bs == [] then 0
    else
      var n := |bs| - 1;
      var p := Pow2(8 * n);
      var low := LittleEndian(bs[..n]);
      var high: nat := bs[n] * p;
      assert low < p;
      MulMonotone(bs[n], 255, p);
      Pow2Add(8 * n, 8);
      Pow2Byte();
      assert 8 * |bs| == 8 * n + 8;
      assert low + high < Pow2(8 * |bs|);
      low + high
  }

  /** The first j bytes of an encoded tag hold the tag modulo 2^(8j). */
  lemma {:induction false} EncodePrefix(tag: u64, j: nat)
    requires j <= TagBytes
    ensures LittleEndian(EncodeTag(tag)[..j]) == tag % Pow2(8 * j)
  {
    var enc := EncodeTag(tag);
    if j > 0 {
      var p := Pow2(8 * (j - 1));
      assert enc[..j][..j - 1] == enc[..j - 1];
      calc {
        LittleEndian(enc[..j]);
        LittleEndian(enc[..j - 1]) + enc[j - 1] * p;
        { EncodePrefix(tag, j - 1); }
        tag % p + ((tag / p) % 256) * p;
        { ModSplit(tag, p, 256); }
        tag % (p * 256);
        { Pow2Add(8 * (j - 1), 8); Pow2Byte(); assert 8 * j == 8 * (j - 1) + 8; }
        tag % Pow2(8 * j);
      }
    } else {
      assert Pow2(0) == 1;
    }
  }

  /** The expression the encoder evaluates for byte j-1, `(tag & mask) >> ((j-1) << 3)`
      with `mask` the low 8j bits, is byte j-1 of the tag. */
  lemma MaskedShiftIsTagByte(tag: nat, j: nat)
    requires 1 <= j
    ensures Shr(And(tag, Pow2(8 * j) - 1), 8 * (j - 1)) == TagByte(tag, j - 1)
  {
    var p := Pow2(8 * (j - 1));
    AndLowMask(tag, 8 * j);
    Pow2Add(8 * (j - 1), 8);
    Pow2Byte();
    assert Pow2(8 * j) == p * 256;
    ModSplit(tag, p, 256);
  }

  /** Decoding the encoding of a tag gives the tag back. */
  lemma TagRoundTrip(tag: u64)
    ensures LittleEndian(EncodeTag(tag)) == tag
  {
    EncodePrefix(tag, TagBytes);
    assert EncodeTag(tag)[..TagBytes] == EncodeTag(tag);
    Pow2Word64();
    DivModUnique(tag, U64_MOD, 0, tag);
  }

  /** Two byte sequences of the same length with the same value are equal. */
  lemma {:induction false} LittleEndianInjective(xs: seq<u8>, ys: seq<u8>)
    requires |xs| == |ys| && LittleEndian(xs) == LittleEndian(ys)
    ensures xs == ys
  {
    if xs != [] {
      var n := |xs| - 1;
      var p := Pow2(8 * n);
      DivModUnique(LittleEndian(xs), p, xs[n], LittleEndian(xs[..n]));
      DivModUnique(LittleEndian(ys), p, ys[n], LittleEndian(ys[..n]));
      LittleEndianInjective(xs[..n], ys[..n]);
      assert xs == xs[..n] + [xs[n]] && ys == ys[..n] + [ys[n]];
    }
  }

  /** Encoding the value of eight stored bytes gives those bytes back. */
  lemma DecodeRoundTrip(bs: seq<u8>)
    requires |bs| == TagBytes
    ensures LittleEndian(bs) < U64_MOD
    ensures EncodeTag(LittleEndian(bs)) == bs
  {
    Pow2Word64();
    var v := LittleEndian(bs);
    TagRoundTrip(v);
    LittleEndianInjective(EncodeTag(v), bs);
  }

  // ---------------------------------------------------------------------
  // Reading and writing one line

  /** The tag held by the line starting at `p`. */
  function TagAt(bytes: seq<u8>, p: nat): nat
    requires p + TagBytes <= |bytes|
  {
    LittleEndian(bytes[p..p + TagBytes])
  }

  /** The line starting at `p` is valid. */
  predicate ValidAt(bytes: seq<u8>, p: nat)
    requires p + ValidOffset < |bytes|
  {
    bytes[p + ValidOffset] != 0
  }

  /** The recency counter of the line starting at `p`. */
  function RefsAt(bytes: seq<u8>, p: nat): u8
    requires p + RefsOffset < |bytes|
  {
    bytes[p + RefsOffset]
  }

  /** The buffer after the tag bytes of the line at `p` are overwritten with `tag`. */
  function WriteTag(bytes: seq<u8>, p: nat, tag: u64): seq<u8>
    requires p + TagBytes <= |bytes|
  {
    seq(|bytes|, k requires 0 <= k < |bytes| =>
      if p <= k < p + TagBytes then EncodeTag(tag)[k - p] else bytes[k])
  }

  /** After writing, the line at `p` holds `tag` and no byte outside its tag bytes changed. */
  lemma WriteTagReadBack(bytes: seq<u8>, p: nat, tag: u64)
    requires p + TagBytes <= |bytes|
    ensures |WriteTag(bytes, p, tag)| == |bytes|
    ensures TagAt(WriteTag(bytes, p, tag), p) == tag
    ensures forall k :: 0 <= k < |bytes| && !(p <= k < p + TagBytes) ==> WriteTag(bytes, p, tag)[k] == bytes[k]
  {
    assert WriteTag(bytes, p, tag)[p..p + TagBytes] == EncodeTag(tag);
    TagRoundTrip(tag);
  }

  /** Two buffers that agree on the tag bytes of a line agree on its tag. */
  lemma TagAtFrame(b1: seq<u8>, b2: seq<u8>, p: nat)
    requires p + TagBytes <= |b1| && p + TagBytes <= |b2|
    requires forall k :: p <= k < p + TagBytes ==> b1[k] == b2[k]
    ensures TagAt(b1, p) == TagAt(b2, p)
  {
    assert b1[p..p + TagBytes] == b2[p..p + TagBytes];
  }
}
