/**
 * The simulated cache as an object: its geometry and the byte buffer that
 * every operation reads and updates in place. Each method follows one
 * function of the simulator and is proved to leave the buffer as the
 * corresponding function of SetPolicy or Layout says.
 */
module CacheModel {
  import opened Bits
  import opened Layout
  import opened SetPolicy

  /** The low 8j bits set, computed as the encoder does: 1 shifted left 8j
      times in a 64-bit word, then minus one. For j = 8 the shifts carry the
      bit out of the word and the subtraction wraps to all ones. */
  method TagByteMask(j: nat) returns (mask: u64)
    requires 1 <= j <= 8
    ensures mask == Pow2(8 * j) - 1
  {
    var i := j * 8;
    mask := 1;
    assert Pow2(0) == 1;
    while i != 0
      invariant 0 <= i <= 8 * j
      invariant mask == WordBit(8 * j - i)
    {
      ShlWordBit(8 * j - i);
      i := i - 1;
      mask := Shl(mask, 1);
    }
    if j < 8 {
      Pow2BelowWord(8 * j);
      DivModUnique(Pow2(8 * j) - 1, U64_MOD, 0, Pow2(8 * j) - 1);
    } else {
      Pow2Word64();
      DivModUnique(-1, U64_MOD, -1, U64_MOD - 1);
    }
    mask := (mask - 1) % U64_MOD;
  }

  class Cache {
    const s: nat       // set index bits
    const E: nat       // lines per set
    const b: nat       // block offset bits
    const buf: array<u8>

    ghost predicate Valid()
      reads this
    {
      ConfigOk(s, E, b) && buf.Length == CacheBytes(s, E)
    }

    /** A cache of 2^s sets of E lines, every byte zero: every line invalid. */
    constructor (s: u32, E: u32, b: u32)
      requires ConfigOk(s, E, b)
      ensures Valid() && fresh(buf)
      ensures this.s == s && this.E == E && this.b == b
      ensures buf.Length == LineBytes * E * Pow2(s)
      ensures forall k :: 0 <= k < buf.Length ==> buf[k] == 0
    {
      this.s, this.E, this.b := s, E, b;
      buf := new u8[CacheBytes(s, E)](_ => 0);
    }

    /** The tag stored in the line at `index`, rebuilt by OR-ing byte j shifted
        left by 8j, the shift done as j shifts by 8. */
    method ReadTag(index: nat) returns (curTag: u64)
      requires index + TagBytes <= buf.Length
      ensures curTag == TagAt(buf[..], index)
    {
      curTag := 0;
      var j := 0;
      while j < TagBytes
        invariant 0 <= j <= TagBytes
        invariant curTag == LittleEndian(buf[index..index + j])
      {
        var tmp := ShiftBytes(buf[index + j], j);
        assert buf[index..index + j + 1][..j] == buf[index..index + j];
        OrLastByte(buf[index..index + j + 1]);
        curTag := Or(curTag, tmp);
        j := j + 1;
      }
      assert buf[index..index + TagBytes] == buf[index..index + j];
    }

    /** The lookup: 0 and the line of the first valid line holding `tag`;
        otherwise 1 and the first invalid line; otherwise 2. */
    method IsHit(setIndex: nat, tag: u64) returns (res: Outcome, idx: nat)
      requires Valid() && SetInBounds(buf.Length, E, setIndex)
      ensures res == OutcomeOf(Classify(buf[..], E, setIndex, tag))
      ensures match Classify(buf[..], E, setIndex, tag)
        case Found(j) => idx == LineStart(E, setIndex, j)
        case Vacant(j) => idx == LineStart(E, setIndex, j)
        case Full => true
    {
      ghost var bytes := buf[..];
      var hasFreeLine := false;
      var bufIndex := setIndex * (LineBytes * E);
      ghost var free := 0;
      ghost var firstMatch := FirstMatch(bytes, E, setIndex, tag, 0);
      ghost var firstInvalid := FirstInvalid(bytes, E, setIndex, 0);
      idx := 0;
      var i := 0;
      while i < E
        invariant 0 <= i <= E
        invariant i <= firstMatch
        invariant hasFreeLine ==> free < i && free == firstInvalid && idx == LineStart(E, setIndex, free)
        invariant !hasFreeLine ==> i <= firstInvalid
      {
        var index := bufIndex + LineBytes * i;
        var valid, hit := ProbeLine(setIndex, tag, i, index);
        if valid {
          if hit {
            res, idx := Hit, index;
            return;
          }
        } else if !hasFreeLine {
          idx, hasFreeLine, free := index, true, i;
        }
        assert !Matches(bytes, E, setIndex, tag, i);
        i := i + 1;
      }
      res := if hasFreeLine then Insert else Evict;
    }

    /** One line of the lookup: whether the line at `index` is valid and,
        if it is, whether the tag it holds is `tag`. */
    method ProbeLine(setIndex: nat, tag: u64, i: nat, index: nat) returns (valid: bool, hit: bool)
      requires Valid() && SetInBounds(buf.Length, E, setIndex)
      requires i < E && index == setIndex * (LineBytes * E) + LineBytes * i
      ensures index == LineStart(E, setIndex, i)
      ensures valid == SlotValid(buf[..], E, setIndex, i)
      ensures hit == Matches(buf[..], E, setIndex, tag, i)
    {
      hit := false;
      valid := buf[index + ValidOffset] != 0;
      if valid {
        var curTag := ReadTag(index);
        hit := curTag == tag;
      }
    }

    /** Ages the counters of set `setIndex` after an access to the line at `idx`. */
    method UpdateRefs(setIndex: nat, idx: nat)
      requires Valid() && SetInBounds(buf.Length, E, setIndex) && IsLineOf(E, setIndex, idx)
      modifies buf
      ensures buf[..] == Aged(old(buf[..]), E, setIndex, idx)
    {
      ghost var before := buf[..];
      var bufIndex := setIndex * (LineBytes * E);
      var i := 0;
      AgedFirstNone(before, E, setIndex, idx);
      while i < E
        invariant 0 <= i <= E
        invariant buf[..] == AgedFirst(before, E, setIndex, idx, i)
      {
        var index := bufIndex + LineBytes * i;
        assert index == LineStart(E, setIndex, i);
        AgedFirstStep(before, E, setIndex, idx, i);
        AgeLine(index, idx);
        i := i + 1;
      }
    }

    /** The body of the ageing loop for the line at `p`: its counter is
        cleared if the line is invalid or is the accessed one, otherwise
        incremented (wrapping at 256) unless byte `idx` is 255. */
    method AgeLine(p: nat, idx: nat)
      requires p + RefsOffset < buf.Length && idx < buf.Length
      modifies buf
      ensures buf[..] == old(buf[..])[p + RefsOffset := AgedRefs(old(buf[..]), p, idx)]
    {
      if buf[p + ValidOffset] == 0 || idx == p {
        buf[p + RefsOffset] := 0;
      } else if buf[idx] < 255 {
        buf[p + RefsOffset] := (buf[p + RefsOffset] + 1) % U8_MOD;
      } else {
        assert buf[..] == buf[..][p + RefsOffset := buf[p + RefsOffset]];
      }
    }

    /** Writes the eight tag bytes of the line at `idx`, byte j-1 being
        `(tag & mask) >> ((j-1) << 3)` with `mask` the low 8j bits. */
    method LoadToFreeLine(tag: u64, idx: nat)
      requires idx + TagBytes <= buf.Length
      modifies buf
      ensures buf[..] == WriteTag(old(buf[..]), idx, tag)
    {
      ghost var before := buf[..];
      var j := 1;
      while j <= TagBytes
        invariant 1 <= j <= TagBytes + 1
        invariant forall k :: 0 <= k < buf.Length ==>
          buf[k] == if idx <= k < idx + j - 1 then EncodeTag(tag)[k - idx] else before[k]
      {
        var mask := TagByteMask(j);
        var t := Shr(And(tag, mask), (j - 1) * 8) % U8_MOD;
        EncoderByte(tag, j);
        buf[idx + j - 1] := t;
        j := j + 1;
      }
      assert buf[..] == WriteTag(before, idx, tag);
    }

    /** Marks the line at `idx` valid. */
    method ValidCacheLine(idx: nat)
      requires idx + ValidOffset < buf.Length
      modifies buf
      ensures buf[..] == old(buf[..])[idx + ValidOffset := 1]
    {
      buf[idx + ValidOffset] := 1;
    }

    /** Marks the line at `idx` invalid. */
    method InvalidCacheLine(idx: nat)
      requires idx + ValidOffset < buf.Length
      modifies buf
      ensures buf[..] == old(buf[..])[idx + ValidOffset := 0]
    {
      buf[idx + ValidOffset] := 0;
    }

    /** Replaces the line with the strictly greatest counter (the first such
        line on ties) by `tag` and ages the set with it as the accessed line. */
    method EvictRLU(setIndex: nat, tag: u64)
      requires Valid() && SetInBounds(buf.Length, E, setIndex)
      modifies buf
      ensures buf[..] == Evicted(old(buf[..]), E, setIndex, tag)
    {
      var maxIdx := FindVictim(setIndex);
      LineStartIsLine(E, setIndex, Victim(buf[..], E, setIndex));
      LoadToFreeLine(tag, maxIdx);
      UpdateRefs(setIndex, maxIdx);
    }

    /** The scan that picks the victim: the first line of the set, replaced by
        each later line whose counter is strictly greater. */
    method FindVictim(setIndex: nat) returns (maxIdx: nat)
      requires Valid() && SetInBounds(buf.Length, E, setIndex)
      ensures maxIdx == LineStart(E, setIndex, Victim(buf[..], E, setIndex))
    {
      ghost var bytes := buf[..];
      var bufIndex := setIndex * (LineBytes * E);
      maxIdx := bufIndex;
      var i := 1;
      while i < E
        invariant 1 <= i <= E
        invariant maxIdx == LineStart(E, setIndex, VictimUpTo(bytes, E, setIndex, i))
      {
        var index := bufIndex + LineBytes * i;
        assert index == LineStart(E, setIndex, i);
        var refs := buf[index + RefsOffset];
        var best := buf[maxIdx + RefsOffset];
        assert refs == SlotRefs(bytes, E, setIndex, i);
        assert best == SlotRefs(bytes, E, setIndex, VictimUpTo(bytes, E, setIndex, i));
        if refs > best {
          maxIdx := index;
        }
        i := i + 1;
      }
    }

    /** One access to `tag` in set `setIndex`: on a hit age the set; on a miss
        with a free line fill it, mark it valid and age the set; otherwise evict. */
    method Access(setIndex: nat, tag: u64) returns (res: Outcome)
      requires Valid() && SetInBounds(buf.Length, E, setIndex)
      modifies buf
      ensures res == AccessOutcome(old(buf[..]), E, setIndex, tag)
      ensures buf[..] == AccessBytes(old(buf[..]), E, setIndex, tag)
    {
      ghost var bytes := buf[..];
      var idx;
      res, idx := IsHit(setIndex, tag);
      ghost var found := Classify(bytes, E, setIndex, tag);
      if res == Hit {
        LineStartIsLine(E, setIndex, found.slot);
        UpdateRefs(setIndex, idx);
      } else if res == Insert {
        InsertLine(setIndex, tag, idx, found.slot);
      } else {
        EvictRLU(setIndex, tag);
      }
    }

    /** A miss with a free line: write the tag into it, mark it valid and age the set. */
    method InsertLine(setIndex: nat, tag: u64, idx: nat, ghost j: nat)
      requires Valid() && SetInBounds(buf.Length, E, setIndex)
      requires j < E && idx == LineStart(E, setIndex, j)
      modifies buf
      ensures buf[..] == Inserted(old(buf[..]), E, setIndex, tag, j)
    {
      LineStartIsLine(E, setIndex, j);
      LoadToFreeLine(tag, idx);
      ValidCacheLine(idx);
      UpdateRefs(setIndex, idx);
    }

    /** A load; the block offset and the access size have no effect. */
    method LoadData(setIndex: nat, tag: u64, offset: u64, bytes: u64) returns (res: Outcome)
      requires Valid() && SetInBounds(buf.Length, E, setIndex)
      modifies buf
      ensures res == AccessOutcome(old(buf[..]), E, setIndex, tag)
      ensures buf[..] == AccessBytes(old(buf[..]), E, setIndex, tag)
    {
      res := Access(setIndex, tag);
    }

    /** A store, with the same protocol as a load (write-allocate). */
    method StoreData(setIndex: nat, tag: u64, offset: u64, bytes: u64) returns (res: Outcome)
      requires Valid() && SetInBounds(buf.Length, E, setIndex)
      modifies buf
      ensures res == AccessOutcome(old(buf[..]), E, setIndex, tag)
      ensures buf[..] == AccessBytes(old(buf[..]), E, setIndex, tag)
    {
      res := Access(setIndex, tag);
    }
  }

  /** A byte moved up n bytes by n shifts of 8 bits, as the decoder does it. */
  method ShiftBytes(byte: u8, n: nat) returns (tmp: u64)
    requires n < TagBytes
    ensures tmp == byte * Pow2(8 * n)
  {
    tmp := byte;
    var m := n;
    while m > 0
      invariant 0 <= m <= n
      invariant tmp == byte * Pow2(8 * (n - m))
    {
      ShiftByteFits(byte, n - m);
      tmp := Shl(tmp, 8);
      m := m - 1;
    }
  }

  /** The byte the encoder stores for position j-1, narrowed to a byte, is byte j-1 of the encoding. */
  lemma EncoderByte(tag: u64, j: nat)
    requires 1 <= j <= TagBytes
    ensures Shr(And(tag, Pow2(8 * j) - 1), (j - 1) * 8) % U8_MOD == EncodeTag(tag)[j - 1]
  {
    var v := Shr(And(tag, Pow2(8 * j) - 1), (j - 1) * 8);
    assert v == TagByte(tag, j - 1) by {
      assert (j - 1) * 8 == 8 * (j - 1);
      MaskedShiftIsTagByte(tag, j);
    }
    DivModUnique(v, U8_MOD, 0, v);
  }

  /** OR-ing the last of at most eight bytes, shifted into place, onto the
      value of the bytes before it gives the value of all of them. */
  lemma OrLastByte(bs: seq<u8>)
    requires 1 <= |bs| <= TagBytes
    ensures var n := |bs| - 1;
      Or(LittleEndian(bs[..n]), bs[n] * Pow2(8 * n)) == LittleEndian(bs) < U64_MOD
  {
    var n := |bs| - 1;
    OrDisjoint(LittleEndian(bs[..n]), bs[n], 8 * n);
    Pow2Monotone(8 * |bs|, 64);
    Pow2Word64();
  }

  /** A byte shifted up by at most seven bytes still fits the 64-bit word. */
  lemma ShiftByteFits(byte: nat, n: nat)
    requires byte < 256 && n < 7
    ensures Shl(byte * Pow2(8 * n), 8) == byte * Pow2(8 * (n + 1))
  {
    var p := Pow2(8 * (n + 1));
    var y := byte * Pow2(8 * n) * Pow2(8);
    assert y == byte * p by {
      Pow2Add(8 * n, 8);
      MulAssociates(byte, Pow2(8 * n), Pow2(8));
    }
    assert y < U64_MOD by {
      Pow2Byte(); Pow2Word64();
      Pow2Monotone(8 * (n + 1), 56);
      Pow2Add(56, 8);
      MulMonotone(byte, 255, p);
      MulMonotone(p, Pow2(56), 255);
    }
    DivModUnique(y, U64_MOD, 0, y);
  }
}
