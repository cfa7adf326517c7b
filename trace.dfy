/**
 * The trace driver: parsing the address and size fields of a trace record,
 * splitting the address into tag, set index and block offset, and replaying
 * a sequence of records against the cache while counting hits, misses and
 * evictions.
 *
 * A record is the text of one trace line after its newline is removed,
 * for example " L 10,4". As in a C string, reading at or past its end yields
 * NUL.
 */
module TraceDriver {
  import opened Bits
  import opened Layout
  import opened SetPolicy
  import opened CacheModel

  datatype Option<T> = None | Some(value: T)

  /** Character k of a record, NUL at and past its end. */
  function CharAt(line: string, k: nat): char
  {
    if k < |line| then line[k] else '\0'
  }

  /** The first index at or after `from` that holds `c`, or |cs| if there is none. */
  function IndexOf(cs: string, c: char, from: nat): (r: nat)
    requires from <= |cs|
    ensures from <= r <= |cs|
    ensures r < |cs| ==> cs[r] == c
    ensures forall k :: from <= k < r ==> cs[k] != c
    decreases |cs| - from
  {
    if from == |cs| then |cs|
    else if cs[from] == c then from
    else IndexOf(cs, c, from + 1)
  }

  // ---------------------------------------------------------------------
  // Parsing

  /** The address field runs from index 3 up to the first comma; the comma
      must be there and the field must fit the 16-character buffer that holds
      it with its terminating NUL. */
  predicate HasAddressField(line: string)
  {
    3 <= |line| && IndexOf(line, ',', 3) < |line| && IndexOf(line, ',', 3) - 3 < 16
  }

  /** The address field of a record. */
  function AddressField(line: string): string
    requires HasAddressField(line)
  {
    line[3..IndexOf(line, ',', 3)]
  }

  /** The digit value getaddr uses: c - '0' for a decimal digit, c - 'a' + 10 for any other character. */
  function HexDigitValue(c: char): int
  {
    if '0' <= c <= '9' then c as int - '0' as int else c as int - 'a' as int + 10
  }

  /** The accumulation `addr = addr * 16 + digit` in 64-bit unsigned arithmetic. */
  function HexAccumulate(cs: string): u64
  {
    if cs == [] then 0
    else (HexAccumulate(cs[..|cs| - 1]) * 16 + HexDigitValue(cs[|cs| - 1])) % U64_MOD
  }

  /** Accumulating one more character. */
  lemma HexAccumulateSnoc(cs: string, n: nat)
    requires n < |cs|
    ensures HexAccumulate(cs[..n + 1]) == (HexAccumulate(cs[..n]) * 16 + HexDigitValue(cs[n])) % U64_MOD
  {
    assert cs[..n + 1][..n] == cs[..n];
  }

  /** The address getaddr returns: the field's characters up to a NUL, if
      one comes before the comma, accumulated as hexadecimal digits. */
  function AddressOf(line: string): u64
    requires HasAddressField(line)
  {
    var field := AddressField(line);
    HexAccumulate(field[..IndexOf(field, '\0', 0)])
  }

  predicate IsLowerHexDigit(c: char)
  {
    '0' <= c <= '9' || 'a' <= c <= 'f'
  }

  /** The value of a lowercase hexadecimal numeral. */
  function HexNumeral(cs: string): (r: nat)
    requires forall k :: 0 <= k < |cs| ==> IsLowerHexDigit(cs[k])
    ensures r < Pow2(4 * |cs|)
  {
    if cs == [] then 0
    else
      var n := |cs| - 1;
      var high := HexNumeral(cs[..n]);
      assert IsLowerHexDigit(cs[n]);
      var d := HexDigitValue(cs[n]);
      assert 0 <= d < 16;
      var p := Pow2(4 * n);
      assert Pow2(4 * |cs|) == p * 16 by {
        Pow2Add(4 * n, 4);
        assert Pow2(4) == 16;
        assert 4 * |cs| == 4 * n + 4;
      }
      assert high * 16 <= (p - 1) * 16 by {
        MulMonotone(high, p - 1, 16);
      }
      high * 16 + d
  }

  /** On a numeral of at most 16 lowercase hexadecimal digits the wrapping
      accumulation never wraps and yields the numeral's value. */
  lemma {:induction false} HexAccumulateExact(cs: string)
    requires |cs| <= 16
    requires forall k :: 0 <= k < |cs| ==> IsLowerHexDigit(cs[k])
    ensures HexAccumulate(cs) == HexNumeral(cs)
  {
    if cs != [] {
      var n := |cs| - 1;
      HexAccumulateExact(cs[..n]);
      var v := HexNumeral(cs[..n]) * 16 + HexDigitValue(cs[n]);
      assert v == HexNumeral(cs);
      assert v < U64_MOD by {
        Pow2Monotone(4 * |cs|, 64);
        Pow2Word64();
      }
      DivModUnique(v, U64_MOD, 0, v);
    }
  }

  /** getaddr on a record whose address field is a lowercase hexadecimal numeral returns its value. */
  lemma AddressOfNumeral(line: string)
    requires HasAddressField(line)
    requires forall k :: 0 <= k < |AddressField(line)| ==> IsLowerHexDigit(AddressField(line)[k])
    ensures AddressOf(line) == HexNumeral(AddressField(line))
  {
    var field := AddressField(line);
    var n := IndexOf(field, '\0', 0);
    assert forall k :: 0 <= k < |field| ==> field[k] != '\0';
    assert n == |field|;
    assert field[..n] == field;
    HexAccumulateExact(field);
  }

  /** getaddr: copy the field into a 16-character buffer, NUL-terminate it,
      then accumulate the digits up to the NUL. */
  method GetAddr(line: string) returns (addr: u64)
    requires HasAddressField(line)
    ensures addr == AddressOf(line)
  {
    var addrs := CopyAddressField(line);
    addr := AccumulateDigits(addrs, AddressField(line));
  }

  /** getaddr's first loop: the characters from index 3 up to the comma, then a NUL. */
  method CopyAddressField(line: string) returns (addrs: array<char>)
    requires HasAddressField(line)
    ensures fresh(addrs) && addrs.Length == 16
    ensures var field := AddressField(line);
      addrs[..|field|] == field && addrs[|field|] == '\0'
  {
    ghost var comma := IndexOf(line, ',', 3);
    ghost var field := AddressField(line);
    var cur := 3;
    addrs := new char[16];
    while CharAt(line, cur) != ','
      invariant 3 <= cur <= comma
      decreases comma - cur
      invariant forall k :: 0 <= k < cur - 3 ==> addrs[k] == field[k]
    {
      addrs[cur - 3] := CharAt(line, cur);
      cur := cur + 1;
    }
    addrs[cur - 3] := '\0';
    assert addrs[..cur - 3] == field;
  }

  /** getaddr's second loop: the digits before the first NUL of the buffer,
      accumulated; the buffer holds `field` and then a NUL. */
  method AccumulateDigits(addrs: array<char>, ghost field: string) returns (addr: u64)
    requires |field| < addrs.Length && addrs[..|field|] == field && addrs[|field|] == '\0'
    ensures addr == HexAccumulate(field[..IndexOf(field, '\0', 0)])
  {
    ghost var len := |field|;
    addr := 0;
    var cur := 0;
    while addrs[cur] != '\0'
      invariant 0 <= cur <= len
      invariant forall k :: 0 <= k < cur ==> field[k] != '\0'
      invariant addr == HexAccumulate(field[..cur])
      decreases len - cur
    {
      var c := addrs[cur];
      assert c == field[cur];
      HexAccumulateSnoc(field, cur);
      addr := (addr * 16 + HexDigitValue(c)) % U64_MOD;
      cur := cur + 1;
    }
    assert cur == IndexOf(field, '\0', 0);
  }

  /** getbytes: skip to the first comma at or after index 3 and return the
      character after it minus '0', as a 64-bit unsigned value. */
  method GetBytes(line: string) returns (bytes: u64)
    requires HasAddressField(line)
    ensures bytes == (CharAt(line, IndexOf(line, ',', 3) + 1) as int - '0' as int) % U64_MOD
    ensures '0' <= CharAt(line, IndexOf(line, ',', 3) + 1) <= '9' ==>
      bytes == CharAt(line, IndexOf(line, ',', 3) + 1) as int - '0' as int
  {
    var cur := 3;
    while CharAt(line, cur) != ','
      invariant 3 <= cur <= IndexOf(line, ',', 3)
      decreases IndexOf(line, ',', 3) - cur
    {
      cur := cur + 1;
    }
    cur := cur + 1;
    bytes := (CharAt(line, cur) as int - '0' as int) % U64_MOD;
  }

  // ---------------------------------------------------------------------
  // Address decomposition

  datatype Parts = Parts(tag: u64, setIndex: nat, offset: nat)

  /** offset = addr & ((1 << b) - 1), set index = (addr & ((1 << (s + b)) - 1)) >> b,
      tag = addr >> (b + s). */
  function Decompose(addr: u64, s: nat, b: nat): (r: Parts)
    requires s + b <= 30
    ensures r.offset < Pow2(b) && r.setIndex < Pow2(s)
    ensures addr == r.tag * Pow2(s + b) + r.setIndex * Pow2(b) + r.offset
  {
    var pb, ps, q := Pow2(b), Pow2(s), Pow2(s + b);
    assert q == pb * ps && Pow2(b + s) == q by {
      Pow2Add(b, s);
    }
    AndLowMask(addr, b);
    AndLowMask(addr, s + b);
    var offset := And(addr, pb - 1);
    var setIndex := Shr(And(addr, q - 1), b);
    var tag := Shr(addr, b + s);
    assert offset == addr % pb && setIndex == (addr % q) / pb && tag == addr / q;
    DivModDigits(addr, pb, ps, q);
    Parts(tag, setIndex, offset)
  }

  // ---------------------------------------------------------------------
  // Replaying a trace

  datatype Totals = Totals(hits: nat, misses: nat, evictions: nat)

  /** Counting one access: a hit counts a hit, an insertion a miss, an eviction a miss and an eviction. */
  function Tally(t: Totals, o: Outcome): Totals
  {
    match o
    case Hit => t.(hits := t.hits + 1)
    case Insert => t.(misses := t.misses + 1)
    case Evict => t.(misses := t.misses + 1, evictions := t.evictions + 1)
  }

  /** The cache's bytes and the running totals. */
  datatype Sim = Sim(bytes: seq<u8>, totals: Totals)

  predicate Geometry(bytes: seq<u8>, s: nat, E: nat, b: nat)
  {
    ConfigOk(s, E, b) && |bytes| == CacheBytes(s, E)
  }

  /** A record the driver can process: an instruction line, or one with an address field. */
  predicate WellFormedRecord(line: string)
  {
    CharAt(line, 0) == 'I' || HasAddressField(line)
  }

  /** One load or store of the decomposed address. */
  function AccessStep(sim: Sim, s: nat, E: nat, b: nat, p: Parts): (r: Sim)
    requires Geometry(sim.bytes, s, E, b) && p.setIndex < Pow2(s)
    ensures Geometry(r.bytes, s, E, b)
  {
    SetFits(s, E, b, p.setIndex);
    AccessPostcondition(sim.bytes, E, p.setIndex, p.tag);
    Sim(AccessBytes(sim.bytes, E, p.setIndex, p.tag), Tally(sim.totals, AccessOutcome(sim.bytes, E, p.setIndex, p.tag)))
  }

  /** One record: 'I' lines are skipped; 'L' and 'S' access once; 'M' accesses
      twice, a load then a store; any other operation letter does nothing. */
  function Step(sim: Sim, s: nat, E: nat, b: nat, line: string): (r: Sim)
    requires Geometry(sim.bytes, s, E, b) && WellFormedRecord(line)
    ensures Geometry(r.bytes, s, E, b)
  {
    if CharAt(line, 0) == 'I' then sim
    else
      var p := Decompose(AddressOf(line), s, b);
      var op := CharAt(line, 1);
      if op == 'L' || op == 'S' then AccessStep(sim, s, E, b, p)
      else if op == 'M' then AccessStep(AccessStep(sim, s, E, b, p), s, E, b, p)
      else sim
  }

  /** The state after replaying the records in order. */
  function Run(sim: Sim, s: nat, E: nat, b: nat, lines: seq<string>): (r: Sim)
    requires Geometry(sim.bytes, s, E, b)
    requires forall i :: 0 <= i < |lines| ==> WellFormedRecord(lines[i])
    ensures Geometry(r.bytes, s, E, b)
  {
    if lines == [] then sim
    else
      var n := |lines| - 1;
      Step(Run(sim, s, E, b, lines[..n]), s, E, b, lines[n])
  }

  /** Replaying one more record is one more step. */
  lemma RunExtend(sim: Sim, s: nat, E: nat, b: nat, lines: seq<string>, i: nat)
    requires Geometry(sim.bytes, s, E, b) && i < |lines|
    requires forall k :: 0 <= k < |lines| ==> WellFormedRecord(lines[k])
    ensures Run(sim, s, E, b, lines[..i + 1]) == Step(Run(sim, s, E, b, lines[..i]), s, E, b, lines[i])
  {
    assert lines[..i + 1][..i] == lines[..i];
  }

  /** The counters the source keeps: 32-bit unsigned, so they wrap. */
  predicate Counts(h: u32, m: u32, e: u32, h0: u32, m0: u32, e0: u32, t: Totals)
  {
    h == (h0 + t.hits) % U32_MOD && m == (m0 + t.misses) % U32_MOD && e == (e0 + t.evictions) % U32_MOD
  }

  /** Counting the result of one access, if one was made. */
  method Count(h: u32, m: u32, e: u32, res: Option<Outcome>) returns (h': u32, m': u32, e': u32)
    ensures res == None ==> h' == h && m' == m && e' == e
    ensures res == Some(Hit) ==> h' == (h + 1) % U32_MOD && m' == m && e' == e
    ensures res == Some(Insert) ==> h' == h && m' == (m + 1) % U32_MOD && e' == e
    ensures res == Some(Evict) ==> h' == h && m' == (m + 1) % U32_MOD && e' == (e + 1) % U32_MOD
  {
    h', m', e' := h, m, e;
    if res == Some(Hit) {
      h' := (h + 1) % U32_MOD;
    } else if res == Some(Insert) {
      m' := (m + 1) % U32_MOD;
    } else if res == Some(Evict) {
      m' := (m + 1) % U32_MOD;
      e' := (e + 1) % U32_MOD;
    }
  }

  /** Counting keeps the 32-bit counters in step with the unbounded totals. */
  lemma CountsTally(h: u32, m: u32, e: u32, h0: u32, m0: u32, e0: u32, t: Totals, o: Outcome)
    requires Counts(h, m, e, h0, m0, e0, t)
    ensures var t' := Tally(t, o);
      Counts(if o == Hit then (h + 1) % U32_MOD else h,
             if o == Hit then m else (m + 1) % U32_MOD,
             if o == Evict then (e + 1) % U32_MOD else e, h0, m0, e0, t')
  {
    ModAdd(h0 + t.hits, 1, U32_MOD);
    ModAdd(m0 + t.misses, 1, U32_MOD);
    ModAdd(e0 + t.evictions, 1, U32_MOD);
  }

  /** The body of traceCache's loop for one record: skip an instruction
      line; otherwise parse the address and size, decompose the address,
      dispatch on the operation letter and count the results. */
  method ProcessRecord(cache: Cache, line: string, h: u32, m: u32, e: u32,
                       ghost h0: u32, ghost m0: u32, ghost e0: u32, ghost t: Totals)
    returns (h': u32, m': u32, e': u32)
    requires cache.Valid() && WellFormedRecord(line) && Counts(h, m, e, h0, m0, e0, t)
    modifies cache.buf
    ensures var r := Step(Sim(old(cache.buf[..]), t), cache.s, cache.E, cache.b, line);
      cache.buf[..] == r.bytes && Counts(h', m', e', h0, m0, e0, r.totals)
  {
    h', m', e' := h, m, e;
    if CharAt(line, 0) == 'I' {
      return;
    }
    var addr := GetAddr(line);
    var bytes := GetBytes(line);
    var p := Decompose(addr, cache.s, cache.b);
    SetFits(cache.s, cache.E, cache.b, p.setIndex);
    var res: Option<Outcome>, res1: Option<Outcome>, res2: Option<Outcome> := None, None, None;
    var op := CharAt(line, 1);
    if op == 'L' {
      var r := cache.LoadData(p.setIndex, p.tag, p.offset % U64_MOD, bytes);
      res := Some(r);
    } else if op == 'S' {
      var r := cache.StoreData(p.setIndex, p.tag, p.offset % U64_MOD, bytes);
      res := Some(r);
    } else if op == 'M' {
      var r1 := cache.LoadData(p.setIndex, p.tag, p.offset % U64_MOD, bytes);
      var r2 := cache.StoreData(p.setIndex, p.tag, p.offset % U64_MOD, bytes);
      res1, res2 := Some(r1), Some(r2);
    }
    ghost var u := t;
    if res.Some? {
      CountsTally(h', m', e', h0, m0, e0, u, res.value);
      u := Tally(u, res.value);
    }
    h', m', e' := Count(h', m', e', res);
    if res1.Some? {
      CountsTally(h', m', e', h0, m0, e0, u, res1.value);
      u := Tally(u, res1.value);
    }
    h', m', e' := Count(h', m', e', res1);
    if res2.Some? {
      CountsTally(h', m', e', h0, m0, e0, u, res2.value);
      u := Tally(u, res2.value);
    }
    h', m', e' := Count(h', m', e', res2);
  }

  /** traceCache over records already read: each record in turn, from the
      zeroed counters' starting values. */
  method TraceCache(cache: Cache, records: seq<string>, h0: u32, m0: u32, e0: u32)
    returns (h: u32, m: u32, e: u32)
    requires cache.Valid()
    requires forall i :: 0 <= i < |records| ==> WellFormedRecord(records[i])
    modifies cache.buf
    ensures Geometry(old(cache.buf[..]), cache.s, cache.E, cache.b)
    ensures var r := Run(Sim(old(cache.buf[..]), Totals(0, 0, 0)), cache.s, cache.E, cache.b, records);
      cache.buf[..] == r.bytes && Counts(h, m, e, h0, m0, e0, r.totals)
  {
    ghost var start := Sim(cache.buf[..], Totals(0, 0, 0));
    h, m, e := h0, m0, e0;
    var i := 0;
    while i < |records|
      invariant 0 <= i <= |records|
      invariant cache.Valid()
      invariant var r := Run(start, cache.s, cache.E, cache.b, records[..i]);
        cache.buf[..] == r.bytes && Counts(h, m, e, h0, m0, e0, r.totals)
    {
      ghost var sim := Run(start, cache.s, cache.E, cache.b, records[..i]);
      RunExtend(start, cache.s, cache.E, cache.b, records, i);
      h, m, e := ProcessRecord(cache, records[i], h, m, e, h0, m0, e0, sim.totals);
      i := i + 1;
    }
    assert records[..i] == records;
  }
  // ---------------------------------------------------------------------
  // What replaying a trace guarantees

  predicate IsAccessOp(c: char)
  {
    c == 'L' || c == 'S' || c == 'M'
  }

  /** The number of cache accesses a record asks for. */
  function AccessesOf(line: string): nat
  {
    if CharAt(line, 0) == 'I' then 0
    else if CharAt(line, 1) == 'L' || CharAt(line, 1) == 'S' then 1
    else if CharAt(line, 1) == 'M' then 2
    else 0
  }

  function AccessesIn(lines: seq<string>): nat
  {
    if lines == [] then 0 else AccessesIn(lines[..|lines| - 1]) + AccessesOf(lines[|lines| - 1])
  }

  /** Counting one access adds one hit or one miss, and an eviction only alongside a miss. */
  lemma TallyCounts(t: Totals, o: Outcome)
    ensures var t' := Tally(t, o);
      t'.hits + t'.misses == t.hits + t.misses + 1 &&
      t.evictions <= t'.evictions && t'.evictions - t.evictions <= t'.misses - t.misses &&
      t.hits <= t'.hits && t.misses <= t'.misses
  {
  }

  /** Every access is counted exactly once, as a hit or a miss, and every
      eviction is also a miss. */
  lemma StepCounts(sim: Sim, s: nat, E: nat, b: nat, line: string)
    requires Geometry(sim.bytes, s, E, b) && WellFormedRecord(line)
    ensures var t, t' := sim.totals, Step(sim, s, E, b, line).totals;
      t'.hits + t'.misses == t.hits + t.misses + AccessesOf(line) &&
      t.evictions <= t'.evictions && t'.evictions - t.evictions <= t'.misses - t.misses &&
      t.hits <= t'.hits && t.misses <= t'.misses
  {
    if CharAt(line, 0) != 'I' {
      var p := Decompose(AddressOf(line), s, b);
      var op := CharAt(line, 1);
      SetFits(s, E, b, p.setIndex);
      var once := AccessStep(sim, s, E, b, p);
      TallyCounts(sim.totals, AccessOutcome(sim.bytes, E, p.setIndex, p.tag));
      if op == 'M' {
        TallyCounts(once.totals, AccessOutcome(once.bytes, E, p.setIndex, p.tag));
      }
    }
  }

  /** Replaying records counts one hit or miss per access they ask for, never
      more evictions than misses, and never decreases a total. */
  lemma {:induction false} RunCounts(sim: Sim, s: nat, E: nat, b: nat, lines: seq<string>)
    requires Geometry(sim.bytes, s, E, b)
    requires forall i :: 0 <= i < |lines| ==> WellFormedRecord(lines[i])
    ensures var t, t' := sim.totals, Run(sim, s, E, b, lines).totals;
      t'.hits + t'.misses == t.hits + t.misses + AccessesIn(lines) &&
      t.evictions <= t'.evictions && t'.evictions - t.evictions <= t'.misses - t.misses &&
      t.hits <= t'.hits && t.misses <= t'.misses
  {
    if lines != [] {
      var n := |lines| - 1;
      RunCounts(sim, s, E, b, lines[..n]);
      StepCounts(Run(sim, s, E, b, lines[..n]), s, E, b, lines[n]);
    }
  }

  /** The totals after a prefix of the trace never exceed those after the whole trace. */
  lemma {:induction false} RunPrefixTotals(sim: Sim, s: nat, E: nat, b: nat, lines: seq<string>, k: nat)
    requires Geometry(sim.bytes, s, E, b)
    requires forall i :: 0 <= i < |lines| ==> WellFormedRecord(lines[i])
    requires k <= |lines|
    ensures var t, t' := Run(sim, s, E, b, lines[..k]).totals, Run(sim, s, E, b, lines).totals;
      t.hits <= t'.hits && t.misses <= t'.misses && t.evictions <= t'.evictions
  {
    if k < |lines| {
      var n := |lines| - 1;
      assert lines[..n][..k] == lines[..k];
      RunPrefixTotals(sim, s, E, b, lines[..n], k);
      StepCounts(Run(sim, s, E, b, lines[..n]), s, E, b, lines[n]);
    } else {
      assert lines[..k] == lines;
    }
  }

  /** A trace of instruction records and records with no load, store or modify leaves cache and totals alone. */
  lemma {:induction false} InertRecords(sim: Sim, s: nat, E: nat, b: nat, lines: seq<string>)
    requires Geometry(sim.bytes, s, E, b)
    requires forall i :: 0 <= i < |lines| ==> WellFormedRecord(lines[i])
    requires forall i :: 0 <= i < |lines| ==> CharAt(lines[i], 0) == 'I' || !IsAccessOp(CharAt(lines[i], 1))
    ensures Run(sim, s, E, b, lines) == sim
  {
    if lines != [] {
      var n := |lines| - 1;
      InertRecords(sim, s, E, b, lines[..n]);
    }
  }

  /** A modify record is a load then a store of the same block: the store
      always hits, the block stays resident in the line the load used, and
      the load hits exactly when the tag was already resident. */
  lemma ModifyRecord(sim: Sim, s: nat, E: nat, b: nat, line: string)
    requires Geometry(sim.bytes, s, E, b) && WellFormedRecord(line)
    requires CharAt(line, 0) != 'I' && CharAt(line, 1) == 'M'
    ensures var p := Decompose(AddressOf(line), s, b);
      var once := AccessStep(sim, s, E, b, p);
      var r := Step(sim, s, E, b, line);
      SetInBounds(|sim.bytes|, E, p.setIndex) &&
      r.totals == Tally(once.totals, Hit) &&
      (AccessOutcome(sim.bytes, E, p.setIndex, p.tag) == Hit <==>
        exists j :: 0 <= j < E && Matches(sim.bytes, E, p.setIndex, p.tag, j)) &&
      Classify(r.bytes, E, p.setIndex, p.tag) == Found(AccessSlot(sim.bytes, E, p.setIndex, p.tag))
  {
    var p := Decompose(AddressOf(line), s, b);
    SetFits(s, E, b, p.setIndex);
    var once := AccessStep(sim, s, E, b, p);
    AccessThenHit(sim.bytes, E, p.setIndex, p.tag);
    AccessThenHit(once.bytes, E, p.setIndex, p.tag);
    var c := Classify(sim.bytes, E, p.setIndex, p.tag);
    if c.Found? {
      assert Matches(sim.bytes, E, p.setIndex, p.tag, c.slot);
    }
  }
}
