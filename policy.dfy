/**
 * The replacement engine as functions on the buffer's contents: the lookup
 * that classifies an access as a hit, a miss with a free line or a miss that
 * needs an eviction; the ageing of the recency counters of a set; the choice
 * of the victim line; and the whole access protocol built from them.
 */
module SetPolicy {
  import opened Bits
  import opened Layout

  /** The result codes of a lookup: 0 hit, 1 insert into a free line, 2 evict. */
  datatype Outcome = Hit | Insert | Evict

  /** What a lookup finds in a set. */
  datatype Lookup =
    | Found(slot: nat)   // the first valid line holding the tag
    | Vacant(slot: nat)  // no such line; the first invalid line
    | Full               // every line valid, none holding the tag

  function OutcomeOf(l: Lookup): Outcome
  {
    match l
    case Found(_) => Hit
    case Vacant(_) => Insert
    case Full => Evict
  }

  /** Line `j` of the set is valid. */
  predicate SlotValid(bytes: seq<u8>, E: nat, setIndex: nat, j: nat)
    requires SetInBounds(|bytes|, E, setIndex) && j < E
  {
    ValidAt(bytes, LineStart(E, setIndex, j))
  }

  /** Line `j` of the set is valid and holds `tag`. */
  predicate Matches(bytes: seq<u8>, E: nat, setIndex: nat, tag: nat, j: nat)
    requires SetInBounds(|bytes|, E, setIndex) && j < E
  {
    SlotValid(bytes, E, setIndex, j) && TagAt(bytes, LineStart(E, setIndex, j)) == tag
  }

  /** The recency counter of line `j` of the set. */
  function SlotRefs(bytes: seq<u8>, E: nat, setIndex: nat, j: nat): u8
    requires SetInBounds(|bytes|, E, setIndex) && j < E
  {
    RefsAt(bytes, LineStart(E, setIndex, j))
  }

  // ---------------------------------------------------------------------
  // Lookup

  /** The first line at or after `from` that holds `tag`, or E if none does. */
  function FirstMatch(bytes: seq<u8>, E: nat, setIndex: nat, tag: nat, from: nat): (r: nat)
    requires SetInBounds(|bytes|, E, setIndex) && from <= E
    ensures from <= r <= E
    ensures r < E ==> Matches(bytes, E, setIndex, tag, r)
    ensures forall k :: from <= k < r ==> !Matches(bytes, E, setIndex, tag, k)
    decreases E - from
  {
    if from == E then E
    else if Matches(bytes, E, setIndex, tag, from) then from
    else FirstMatch(bytes, E, setIndex, tag, from + 1)
  }

  /** The first invalid line at or after `from`, or E if none is. */
  function FirstInvalid(bytes: seq<u8>, E: nat, setIndex: nat, from: nat): (r: nat)
    requires SetInBounds(|bytes|, E, setIndex) && from <= E
    ensures from <= r <= E
    ensures r < E ==> !SlotValid(bytes, E, setIndex, r)
    ensures forall k :: from <= k < r ==> SlotValid(bytes, E, setIndex, k)
    decreases E - from
  {
    if from == E then E
    else if !SlotValid(bytes, E, setIndex, from) then from
    else FirstInvalid(bytes, E, setIndex, from + 1)
  }

  /** The lookup of `tag` in set `setIndex`. A line holding the tag wins over
      any free line, wherever the free line is. */
  function Classify(bytes: seq<u8>, E: nat, setIndex: nat, tag: nat): (r: Lookup)
    requires SetInBounds(|bytes|, E, setIndex)
    ensures r.Found? ==>
      r.slot < E && Matches(bytes, E, setIndex, tag, r.slot) &&
      forall k :: 0 <= k < r.slot ==> !Matches(bytes, E, setIndex, tag, k)
    ensures r.Vacant? ==>
      r.slot < E && !SlotValid(bytes, E, setIndex, r.slot) &&
      (forall k :: 0 <= k < r.slot ==> SlotValid(bytes, E, setIndex, k)) &&
      forall k :: 0 <= k < E ==> !Matches(bytes, E, setIndex, tag, k)
    ensures r.Full? ==>
      forall k :: 0 <= k < E ==> SlotValid(bytes, E, setIndex, k) && !Matches(bytes, E, setIndex, tag, k)
  {
    var h := FirstMatch(bytes, E, setIndex, tag, 0);
    if h < E then Found(h)
    else
      var f := FirstInvalid(bytes, E, setIndex, 0);
      if f < E then Vacant(f) else Full
  }

  /** Conversely, the first line holding the tag is found. */
  lemma ClassifyFound(bytes: seq<u8>, E: nat, setIndex: nat, tag: nat, j: nat)
    requires SetInBounds(|bytes|, E, setIndex) && j < E && Matches(bytes, E, setIndex, tag, j)
    requires forall k :: 0 <= k < j ==> !Matches(bytes, E, setIndex, tag, k)
    ensures Classify(bytes, E, setIndex, tag) == Found(j)
  {
  }

  /** Conversely, with no line holding the tag, the first invalid line is the free one. */
  lemma ClassifyVacant(bytes: seq<u8>, E: nat, setIndex: nat, tag: nat, j: nat)
    requires SetInBounds(|bytes|, E, setIndex) && j < E && !SlotValid(bytes, E, setIndex, j)
    requires forall k :: 0 <= k < j ==> SlotValid(bytes, E, setIndex, k)
    requires forall k :: 0 <= k < E ==> !Matches(bytes, E, setIndex, tag, k)
    ensures Classify(bytes, E, setIndex, tag) == Vacant(j)
  {
  }

  /** Conversely, with every line valid and none holding the tag, the set is full. */
  lemma ClassifyFull(bytes: seq<u8>, E: nat, setIndex: nat, tag: nat)
    requires SetInBounds(|bytes|, E, setIndex)
    requires forall k :: 0 <= k < E ==> SlotValid(bytes, E, setIndex, k) && !Matches(bytes, E, setIndex, tag, k)
    ensures Classify(bytes, E, setIndex, tag) == Full
  {
  }

  // ---------------------------------------------------------------------
  // Ageing the recency counters of a set

  /** The new recency counter of the line at `p` after an access to the line
      at `idx`. The saturation guard reads byte `idx`, the low tag byte of
      the accessed line, not the counter being incremented, so a counter at
      255 wraps to 0. */
  function AgedRefs(bytes: seq<u8>, p: nat, idx: nat): u8
    requires p + RefsOffset < |bytes| && idx < |bytes|
  {
    if bytes[p + ValidOffset] == 0 || p == idx then 0
    else if bytes[idx] < 255 then (bytes[p + RefsOffset] + 1) % U8_MOD
    else bytes[p + RefsOffset]
  }

  /** The buffer with the counters of the first n lines of set `setIndex`
      aged for an access to the line at `idx`. */
  function AgedFirst(bytes: seq<u8>, E: nat, setIndex: nat, idx: nat, n: nat): seq<u8>
    requires SetInBounds(|bytes|, E, setIndex) && IsLineOf(E, setIndex, idx) && n <= E
  {
    seq(|bytes|, k requires 0 <= k < |bytes| =>
      if IsRefsByte(E, setIndex, k) && k < LineStart(E, setIndex, n)
      then AgedRefs(bytes, k - RefsOffset, idx) else bytes[k])
  }

  /** The buffer after the counters of set `setIndex` are aged for an access to the line at `idx`. */
  function Aged(bytes: seq<u8>, E: nat, setIndex: nat, idx: nat): seq<u8>
    requires SetInBounds(|bytes|, E, setIndex) && IsLineOf(E, setIndex, idx)
  {
    AgedFirst(bytes, E, setIndex, idx, E)
  }

  /** Before any line is aged nothing has changed. */
  lemma AgedFirstNone(bytes: seq<u8>, E: nat, setIndex: nat, idx: nat)
    requires SetInBounds(|bytes|, E, setIndex) && IsLineOf(E, setIndex, idx)
    ensures AgedFirst(bytes, E, setIndex, idx, 0) == bytes
  {
  }

  /** Ageing line i changes only its counter, to AgedRefs of the original
      bytes; the bytes that rule reads are still the original ones. */
  lemma AgedFirstStep(bytes: seq<u8>, E: nat, setIndex: nat, idx: nat, i: nat)
    requires SetInBounds(|bytes|, E, setIndex) && IsLineOf(E, setIndex, idx) && i < E
    ensures var cur, p := AgedFirst(bytes, E, setIndex, idx, i), LineStart(E, setIndex, i);
      |cur| == |bytes| && p + RefsOffset < |bytes| &&
      cur[p + ValidOffset] == bytes[p + ValidOffset] && cur[p + RefsOffset] == bytes[p + RefsOffset] &&
      cur[idx] == bytes[idx] &&
      AgedFirst(bytes, E, setIndex, idx, i + 1) == cur[p + RefsOffset := AgedRefs(bytes, p, idx)]
  {
    var p := LineStart(E, setIndex, i);
    forall k | p <= k < p + LineBytes
      ensures IsRefsByte(E, setIndex, k) <==> k == p + RefsOffset
    {
      RefsByteOfLine(E, setIndex, i, k);
    }
    assert !IsRefsByte(E, setIndex, idx);
  }

  /** Ageing sets the counter of line j by the rule of AgedRefs and changes no other byte of that line. */
  lemma AgedLine(bytes: seq<u8>, E: nat, setIndex: nat, idx: nat, j: nat)
    requires SetInBounds(|bytes|, E, setIndex) && IsLineOf(E, setIndex, idx) && j < E
    ensures |Aged(bytes, E, setIndex, idx)| == |bytes|
    ensures SlotRefs(Aged(bytes, E, setIndex, idx), E, setIndex, j) == AgedRefs(bytes, LineStart(E, setIndex, j), idx)
    ensures forall k :: LineStart(E, setIndex, j) <= k < LineStart(E, setIndex, j) + RefsOffset ==>
      Aged(bytes, E, setIndex, idx)[k] == bytes[k]
  {
    var p := LineStart(E, setIndex, j);
    forall k | p <= k < p + LineBytes
      ensures IsRefsByte(E, setIndex, k) <==> k == p + RefsOffset
    {
      RefsByteOfLine(E, setIndex, j, k);
    }
    var q := p + RefsOffset;
    assert IsRefsByte(E, setIndex, q) && q < LineStart(E, setIndex, E) && q - RefsOffset == p;
    assert Aged(bytes, E, setIndex, idx)[q] == AgedRefs(bytes, p, idx);
  }

  /** Ageing sets every counter of the set by the rule of AgedRefs, and changes
      no tag byte, no valid byte and no byte of another set. */
  lemma AgedLines(bytes: seq<u8>, E: nat, setIndex: nat, idx: nat)
    requires SetInBounds(|bytes|, E, setIndex) && IsLineOf(E, setIndex, idx)
    ensures |Aged(bytes, E, setIndex, idx)| == |bytes|
    ensures forall j :: 0 <= j < E ==>
      SlotRefs(Aged(bytes, E, setIndex, idx), E, setIndex, j) == AgedRefs(bytes, LineStart(E, setIndex, j), idx)
    ensures forall j, k :: 0 <= j < E && LineStart(E, setIndex, j) <= k < LineStart(E, setIndex, j) + RefsOffset ==>
      Aged(bytes, E, setIndex, idx)[k] == bytes[k]
    ensures forall k :: 0 <= k < |bytes| && !(SetBase(E, setIndex) <= k < SetBase(E, setIndex) + LineBytes * E) ==>
      Aged(bytes, E, setIndex, idx)[k] == bytes[k]
  {
    forall j | 0 <= j < E
      ensures SlotRefs(Aged(bytes, E, setIndex, idx), E, setIndex, j) == AgedRefs(bytes, LineStart(E, setIndex, j), idx)
      ensures forall k :: LineStart(E, setIndex, j) <= k < LineStart(E, setIndex, j) + RefsOffset ==>
        Aged(bytes, E, setIndex, idx)[k] == bytes[k]
    {
      AgedLine(bytes, E, setIndex, idx, j);
    }
  }

  /** Ageing leaves the tag and the validity of every line of the set as they were. */
  lemma AgedKeepsLines(bytes: seq<u8>, E: nat, setIndex: nat, idx: nat, j: nat)
    requires SetInBounds(|bytes|, E, setIndex) && IsLineOf(E, setIndex, idx) && j < E
    ensures |Aged(bytes, E, setIndex, idx)| == |bytes|
    ensures SlotValid(Aged(bytes, E, setIndex, idx), E, setIndex, j) == SlotValid(bytes, E, setIndex, j)
    ensures TagAt(Aged(bytes, E, setIndex, idx), LineStart(E, setIndex, j)) == TagAt(bytes, LineStart(E, setIndex, j))
  {
    AgedLines(bytes, E, setIndex, idx);
    TagAtFrame(Aged(bytes, E, setIndex, idx), bytes, LineStart(E, setIndex, j));
  }

  /** The guard quirk, first half: with the accessed line's low tag byte below
      255, a valid line other than the accessed one whose counter is 255 wraps to 0. */
  lemma CounterWraps(bytes: seq<u8>, E: nat, setIndex: nat, idx: nat, j: nat)
    requires SetInBounds(|bytes|, E, setIndex) && IsLineOf(E, setIndex, idx) && j < E
    requires SlotValid(bytes, E, setIndex, j) && LineStart(E, setIndex, j) != idx
    requires bytes[idx] < 255 && SlotRefs(bytes, E, setIndex, j) == 255
    ensures SlotRefs(Aged(bytes, E, setIndex, idx), E, setIndex, j) == 0
  {
    AgedLines(bytes, E, setIndex, idx);
  }

  /** The guard quirk, second half: when the accessed line's low tag byte is
      255, no counter of the set is incremented, whatever its value. */
  lemma GuardFreezesCounters(bytes: seq<u8>, E: nat, setIndex: nat, idx: nat, j: nat)
    requires SetInBounds(|bytes|, E, setIndex) && IsLineOf(E, setIndex, idx) && j < E
    requires SlotValid(bytes, E, setIndex, j) && LineStart(E, setIndex, j) != idx
    requires bytes[idx] == 255
    ensures SlotRefs(Aged(bytes, E, setIndex, idx), E, setIndex, j) == SlotRefs(bytes, E, setIndex, j)
  {
    AgedLines(bytes, E, setIndex, idx);
  }

  // ---------------------------------------------------------------------
  // Victim selection

  /** The line among the first n with the greatest counter; on ties the lowest. */
  function VictimUpTo(bytes: seq<u8>, E: nat, setIndex: nat, n: nat): (r: nat)
    requires SetInBounds(|bytes|, E, setIndex) && 1 <= n <= E
    ensures r < n
    ensures forall k :: 0 <= k < n ==> SlotRefs(bytes, E, setIndex, k) <= SlotRefs(bytes, E, setIndex, r)
    ensures forall k :: 0 <= k < r ==> SlotRefs(bytes, E, setIndex, k) < SlotRefs(bytes, E, setIndex, r)
  {
    if n == 1 then 0
    else
      var v := VictimUpTo(bytes, E, setIndex, n - 1);
      if SlotRefs(bytes, E, setIndex, n - 1) > SlotRefs(bytes, E, setIndex, v) then n - 1 else v
  }

  /** The line an eviction replaces. */
  function Victim(bytes: seq<u8>, E: nat, setIndex: nat): nat
    requires SetInBounds(|bytes|, E, setIndex)
  {
    VictimUpTo(bytes, E, setIndex, E)
  }

  // ---------------------------------------------------------------------
  // The access protocol

  /** Miss with a free line: write the tag, mark the line valid, age the set. */
  function Inserted(bytes: seq<u8>, E: nat, setIndex: nat, tag: u64, j: nat): seq<u8>
    requires SetInBounds(|bytes|, E, setIndex) && j < E
  {
    var p := LineStart(E, setIndex, j);
    LineStartIsLine(E, setIndex, j);
    Aged(WriteTag(bytes, p, tag)[p + ValidOffset := 1], E, setIndex, p)
  }

  /** Miss with every line valid: overwrite the victim's tag and age the set. */
  function Evicted(bytes: seq<u8>, E: nat, setIndex: nat, tag: u64): seq<u8>
    requires SetInBounds(|bytes|, E, setIndex)
  {
    var v := Victim(bytes, E, setIndex);
    var p := LineStart(E, setIndex, v);
    LineStartIsLine(E, setIndex, v);
    Aged(WriteTag(bytes, p, tag), E, setIndex, p)
  }

  /** The line an access ends on: the line found, the free line filled, or the victim. */
  function AccessSlot(bytes: seq<u8>, E: nat, setIndex: nat, tag: u64): nat
    requires SetInBounds(|bytes|, E, setIndex)
  {
    match Classify(bytes, E, setIndex, tag)
    case Found(j) => j
    case Vacant(j) => j
    case Full => Victim(bytes, E, setIndex)
  }

  /** The buffer after one load or store of `tag` in set `setIndex`. */
  function AccessBytes(bytes: seq<u8>, E: nat, setIndex: nat, tag: u64): seq<u8>
    requires SetInBounds(|bytes|, E, setIndex)
  {
    match Classify(bytes, E, setIndex, tag)
    case Found(j) =>
      LineStartIsLine(E, setIndex, j);
      Aged(bytes, E, setIndex, LineStart(E, setIndex, j))
    case Vacant(j) => Inserted(bytes, E, setIndex, tag, j)
    case Full => Evicted(bytes, E, setIndex, tag)
  }

  /** The result code of one load or store. */
  function AccessOutcome(bytes: seq<u8>, E: nat, setIndex: nat, tag: u64): Outcome
    requires SetInBounds(|bytes|, E, setIndex)
  {
    OutcomeOf(Classify(bytes, E, setIndex, tag))
  }
  // ---------------------------------------------------------------------
  // What one access guarantees

  /** Two buffers that agree on the tag and valid bytes of line k agree on whether it holds `tag`. */
  lemma MatchesFrame(b1: seq<u8>, b2: seq<u8>, E: nat, setIndex: nat, tag: nat, k: nat)
    requires SetInBounds(|b1|, E, setIndex) && |b2| == |b1| && k < E
    requires forall i :: LineStart(E, setIndex, k) <= i < LineStart(E, setIndex, k) + RefsOffset ==> b1[i] == b2[i]
    ensures Matches(b1, E, setIndex, tag, k) == Matches(b2, E, setIndex, tag, k)
  {
    TagAtFrame(b1, b2, LineStart(E, setIndex, k));
  }

  /** Line j of `r` is valid, holds `tag` and has counter 0, and `r` agrees
      with `bytes` outside the set. */
  predicate HoldsAfterAccess(r: seq<u8>, bytes: seq<u8>, E: nat, setIndex: nat, tag: nat, j: nat)
    requires SetInBounds(|bytes|, E, setIndex)
  {
    |r| == |bytes| && j < E &&
    SlotValid(r, E, setIndex, j) &&
    TagAt(r, LineStart(E, setIndex, j)) == tag &&
    SlotRefs(r, E, setIndex, j) == 0 &&
    forall k :: 0 <= k < |bytes| && !(SetBase(E, setIndex) <= k < SetBase(E, setIndex) + LineBytes * E) ==>
      r[k] == bytes[k]
  }

  lemma HitHolds(bytes: seq<u8>, E: nat, setIndex: nat, tag: u64, j: nat)
    requires SetInBounds(|bytes|, E, setIndex) && j < E && Matches(bytes, E, setIndex, tag, j)
    requires IsLineOf(E, setIndex, LineStart(E, setIndex, j))
    ensures HoldsAfterAccess(Aged(bytes, E, setIndex, LineStart(E, setIndex, j)), bytes, E, setIndex, tag, j)
  {
    var p := LineStart(E, setIndex, j);
    AgedLines(bytes, E, setIndex, p);
    AgedKeepsLines(bytes, E, setIndex, p, j);
  }

  lemma InsertHolds(bytes: seq<u8>, E: nat, setIndex: nat, tag: u64, j: nat)
    requires SetInBounds(|bytes|, E, setIndex) && j < E
    ensures HoldsAfterAccess(Inserted(bytes, E, setIndex, tag, j), bytes, E, setIndex, tag, j)
  {
    var p := LineStart(E, setIndex, j);
    LineStartIsLine(E, setIndex, j);
    var w := WriteTag(bytes, p, tag);
    var w1 := w[p + ValidOffset := 1];
    WriteTagReadBack(bytes, p, tag);
    TagAtFrame(w1, w, p);
    AgedLines(w1, E, setIndex, p);
    AgedKeepsLines(w1, E, setIndex, p, j);
  }

  lemma EvictHolds(bytes: seq<u8>, E: nat, setIndex: nat, tag: u64)
    requires SetInBounds(|bytes|, E, setIndex) && SlotValid(bytes, E, setIndex, Victim(bytes, E, setIndex))
    ensures HoldsAfterAccess(Evicted(bytes, E, setIndex, tag), bytes, E, setIndex, tag, Victim(bytes, E, setIndex))
  {
    var j := Victim(bytes, E, setIndex);
    var p := LineStart(E, setIndex, j);
    LineStartIsLine(E, setIndex, j);
    var w := WriteTag(bytes, p, tag);
    WriteTagReadBack(bytes, p, tag);
    AgedLines(w, E, setIndex, p);
    AgedKeepsLines(w, E, setIndex, p, j);
  }

  /** After a load or store of `tag`, the line the access ended on is valid,
      holds `tag` and has counter 0, and no byte outside the set changed. */
  lemma AccessPostcondition(bytes: seq<u8>, E: nat, setIndex: nat, tag: u64)
    requires SetInBounds(|bytes|, E, setIndex)
    ensures var r, j := AccessBytes(bytes, E, setIndex, tag), AccessSlot(bytes, E, setIndex, tag);
      |r| == |bytes| && j < E &&
      SlotValid(r, E, setIndex, j) &&
      TagAt(r, LineStart(E, setIndex, j)) == tag &&
      SlotRefs(r, E, setIndex, j) == 0 &&
      forall k :: 0 <= k < |bytes| && !(SetBase(E, setIndex) <= k < SetBase(E, setIndex) + LineBytes * E) ==>
        r[k] == bytes[k]
  {
    match Classify(bytes, E, setIndex, tag)
    case Found(j) =>
      LineStartIsLine(E, setIndex, j);
      HitHolds(bytes, E, setIndex, tag, j);
    case Vacant(j) =>
      InsertHolds(bytes, E, setIndex, tag, j);
    case Full =>
      EvictHolds(bytes, E, setIndex, tag);
  }

  /** An eviction keeps the validity of every line and the tag of every line
      but the victim, whose tag becomes the new one. */
  lemma EvictedLines(bytes: seq<u8>, E: nat, setIndex: nat, tag: u64, j: nat)
    requires SetInBounds(|bytes|, E, setIndex) && j < E
    ensures |Evicted(bytes, E, setIndex, tag)| == |bytes|
    ensures SlotValid(Evicted(bytes, E, setIndex, tag), E, setIndex, j) == SlotValid(bytes, E, setIndex, j)
    ensures Evicted(bytes, E, setIndex, tag)[LineStart(E, setIndex, j) + ValidOffset] ==
      bytes[LineStart(E, setIndex, j) + ValidOffset]
    ensures TagAt(Evicted(bytes, E, setIndex, tag), LineStart(E, setIndex, j)) ==
      if j == Victim(bytes, E, setIndex) then tag as nat else TagAt(bytes, LineStart(E, setIndex, j))
  {
    var v := Victim(bytes, E, setIndex);
    var p := LineStart(E, setIndex, v);
    var q := LineStart(E, setIndex, j);
    var w := WriteTag(bytes, p, tag);
    LineStartIsLine(E, setIndex, v);
    WriteTagReadBack(bytes, p, tag);
    AgedKeepsLines(w, E, setIndex, p, j);
    assert w[q + ValidOffset] == bytes[q + ValidOffset];
    if j != v {
      TagAtFrame(w, bytes, q);
    }
  }

  /** A load or store changes no tag or valid byte of any line but the one it ends on. */
  lemma AccessKeepsOtherLines(bytes: seq<u8>, E: nat, setIndex: nat, tag: u64, k: nat)
    requires SetInBounds(|bytes|, E, setIndex) && k < E && k != AccessSlot(bytes, E, setIndex, tag)
    ensures |AccessBytes(bytes, E, setIndex, tag)| == |bytes|
    ensures forall i :: LineStart(E, setIndex, k) <= i < LineStart(E, setIndex, k) + RefsOffset ==>
      AccessBytes(bytes, E, setIndex, tag)[i] == bytes[i]
  {
    var j := AccessSlot(bytes, E, setIndex, tag);
    var p := LineStart(E, setIndex, j);
    LineStartIsLine(E, setIndex, j);
    match Classify(bytes, E, setIndex, tag)
    case Found(_) =>
      AgedLines(bytes, E, setIndex, p);
    case Vacant(_) =>
      AgedLines(WriteTag(bytes, p, tag)[p + ValidOffset := 1], E, setIndex, p);
    case Full =>
      AgedLines(WriteTag(bytes, p, tag), E, setIndex, p);
  }

  /** A second access to the same tag and set right after a load or store is a
      hit on the same line. In particular the store half of a modify always hits. */
  lemma AccessThenHit(bytes: seq<u8>, E: nat, setIndex: nat, tag: u64)
    requires SetInBounds(|bytes|, E, setIndex)
    ensures |AccessBytes(bytes, E, setIndex, tag)| == |bytes|
    ensures Classify(AccessBytes(bytes, E, setIndex, tag), E, setIndex, tag) == Found(AccessSlot(bytes, E, setIndex, tag))
  {
    var r := AccessBytes(bytes, E, setIndex, tag);
    var j := AccessSlot(bytes, E, setIndex, tag);
    AccessPostcondition(bytes, E, setIndex, tag);
    assert Matches(r, E, setIndex, tag, j);
    forall k | 0 <= k < j
      ensures !Matches(r, E, setIndex, tag, k)
    {
      assert !Matches(bytes, E, setIndex, tag, k);
      AccessKeepsOtherLines(bytes, E, setIndex, tag, k);
      MatchesFrame(r, bytes, E, setIndex, tag, k);
    }
  }
}
