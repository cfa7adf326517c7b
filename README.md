# A verified model of the RLU cache simulator

`RLU/cache_RLU.c` simulates a set-associative cache over a memory-access trace.
The cache is one flat, zeroed byte buffer holding `2^s` sets of `E` lines. Each
line is 10 bytes:

- bytes 0-7: the tag, little-endian;
- byte 8: the valid flag;
- byte 9: a one-byte recency counter.

Line `j` of set `i` starts at `i*10*E + 10*j`.

A load or a store of an address works like this:

1. Split the address into tag, set index and block offset.
2. Look the tag up in its set (`ishit`). The result is a hit, a miss with a free line, or a miss with a full set.
3. On a free-line miss, write the tag into that line and mark it valid.
4. On a full-set miss, overwrite the line with the greatest counter (`evictRLU`).
5. Age the counters of the set (`updataRefs`). The accessed line's counter returns to 0.

`traceCache` reads trace records. It skips instruction records (`I`) and
parses the hexadecimal address and the size of the rest. It performs one access
for `L` and `S` and two for `M`, and counts hits, misses and evictions.

The project has five modules:

| module | file | contents |
|---|---|---|
| `Bits` | `bits.dfy` | The unsigned integer ranges `u8`, `u32` and `u64` as subsets of `int`. C's `&`, `|`, `<<` and `>>` on them. Lemmas that turn masks and disjoint ORs into arithmetic. |
| `Layout` | `layout.dfy` | The buffer geometry and the 10-byte line layout. The little-endian tag codec and its round trips. |
| `SetPolicy` | `policy.dfy` | Pure specification functions on the buffer contents (`seq<u8>`): the lookup classification, counter ageing, victim choice and one whole access. Lemmas about them. |
| `CacheModel` | `cache.dfy` | The cache as a class. Its buffer is an `array<u8>` updated in place, and each C function is a method with the C's loops. Each method is proved to compute the corresponding `SetPolicy`/`Layout` function. |
| `TraceDriver` | `trace.dfy` | `getaddr`, `getbytes`, the address decomposition, and the replay of a sequence of records. The replay is specified by a fold (`Run`) over the records. Lemmas about the totals. |

Behaviour is modelled as written, including two places where it departs from the obvious intent:

- **The counter guard reads the wrong byte.** In `updataRefs`, the guard before an increment reads `cache.buf[idx]` (line 132). That is the low tag byte of the accessed line, not the counter being incremented. So a counter at 255 wraps to 0 when that tag byte is below 255. When that tag byte is 255, no valid line other than the accessed one has its counter incremented. The accessed line and invalid lines are still reset to 0. `SetPolicy.CounterWraps` and `SetPolicy.GuardFreezesCounters` prove both effects.
  - The counters do not saturate: nothing stops a counter at 255, and the model follows the code.
- **Hit, miss and eviction counters wrap.** They are 32-bit unsigned in the code (`u32`), so they wrap modulo 2^32.

## Model

| member | source | states |
|---|---|---|
| `Bits.AndLowMask` | RLU/cache_RLU.c:244-245 | Masking with `2^n - 1` keeps exactly the value modulo `2^n`. |
| `Bits.OrDisjoint` | RLU/cache_RLU.c:109 | OR-ing a value below `2^n` with a multiple of `2^n` is their sum. |
| `Bits.ShlWordBit` | RLU/cache_RLU.c:141-144 | One more `mask << 1` on a 64-bit word holding bit `n` gives bit `n+1`, or 0 once the bit has been shifted out past bit 63. |
| `Layout.CacheBytes` | RLU/cache_RLU.c:49-50 | The 32-bit size computation `(80 * E * (1 << s)) >> 3` is exactly `10 * E * 2^s` bytes when the product fits 32 bits. |
| `Layout.SetFits` | RLU/cache_RLU.c:94-96 | For every set index below `2^s`, all `E` lines of that set, starting at `set*10*E`, lie inside the buffer. |
| `Layout.LittleEndian` | RLU/cache_RLU.c:100-111 | The little-endian value of `n` bytes is below `2^(8n)`. |
| `Layout.EncodePrefix` | RLU/cache_RLU.c:138-150 | The first `j` bytes the encoder writes hold the tag modulo `2^(8j)`. |
| `Layout.LittleEndianInjective` | RLU/cache_RLU.c:100-113 | Two stored byte sequences of the same length with the same value are equal, so the tag comparison at line 113 compares the eight bytes. |
| `Layout.MaskedShiftIsTagByte` | RLU/cache_RLU.c:140-146 | `(tag & (2^(8j) - 1)) >> 8(j-1)` is byte `j-1` of the tag. |
| `Layout.TagRoundTrip` | RLU/cache_RLU.c:138-150 | Decoding the eight bytes the encoder writes gives back the tag. |
| `Layout.DecodeRoundTrip` | RLU/cache_RLU.c:100-111 | Any eight bytes decode to a 64-bit value whose encoding is those bytes. |
| `Layout.WriteTagReadBack` | RLU/cache_RLU.c:138-150 | After the tag is written at `p`, the line at `p` reads back that tag, the length is unchanged, and no byte outside `p..p+7` changed. |
| `SetPolicy.FirstMatch` | RLU/cache_RLU.c:95-116 | The first slot at or after `from` that is valid and holds the tag, or `E` when there is none. |
| `SetPolicy.FirstInvalid` | RLU/cache_RLU.c:117-120 | The first invalid slot at or after `from`, or `E` when there is none. |
| `SetPolicy.Classify` | RLU/cache_RLU.c:92-124 | Found(j) exactly when j is the first valid slot holding the tag, even if an earlier slot is free. Vacant(j) exactly when no slot holds the tag, j is invalid and every slot before j is valid. Full exactly when every slot is valid and none matches. |
| `SetPolicy.ClassifyFound` | RLU/cache_RLU.c:99-116 | Conversely, when slot `j` is valid, holds the tag and no earlier slot does, the lookup is `Found(j)`. |
| `SetPolicy.ClassifyVacant` | RLU/cache_RLU.c:117-122 | Conversely, when no slot holds the tag, slot `j` is invalid and every earlier slot is valid, the lookup is `Vacant(j)`. |
| `SetPolicy.ClassifyFull` | RLU/cache_RLU.c:122-123 | Conversely, when every slot is valid and none holds the tag, the lookup is `Full`. |
| `SetPolicy.AgedLines` | RLU/cache_RLU.c:126-136 | For every line of the set: the counter becomes 0 if the line is invalid or is the accessed line. Otherwise it is incremented modulo 256 when byte `idx` is below 255, and kept otherwise. Tag bytes, valid bytes and other sets are unchanged. |
| `SetPolicy.AgedKeepsLines` | RLU/cache_RLU.c:126-136 | Ageing keeps every line's validity and tag. |
| `SetPolicy.CounterWraps` | RLU/cache_RLU.c:132-133 | A valid, non-accessed line whose counter is 255 wraps to 0 when byte `idx` is below 255. |
| `SetPolicy.GuardFreezesCounters` | RLU/cache_RLU.c:132 | When byte `idx` is 255, every valid, non-accessed line keeps its counter. |
| `SetPolicy.VictimUpTo` | RLU/cache_RLU.c:163-168 | The chosen slot has the greatest counter among the first `n`, and every slot before it has a strictly smaller one, so ties go to the lowest slot. |
| `SetPolicy.EvictedLines` | RLU/cache_RLU.c:161-172 | An eviction keeps every line's valid byte (and so its validity) and every tag except the victim's, which becomes the new tag. |
| `SetPolicy.AccessPostcondition` | RLU/cache_RLU.c:179-219 | After a load or store the set holds a valid line with the accessed tag and counter 0, the length is unchanged, and no byte outside the set changed. |
| `SetPolicy.AccessKeepsOtherLines` | RLU/cache_RLU.c:179-219 | A load or store changes no tag or valid byte of any line except the one it ends on. |
| `SetPolicy.AccessThenHit` | RLU/cache_RLU.c:179-219 | Right after a load or store, the same tag in the same set is found in the line that access ended on. |
| `CacheModel.TagByteMask` | RLU/cache_RLU.c:140-145 | The shift-by-one loop then `mask -= 1` yields `2^(8j) - 1`. That includes all ones for `j = 8`, where the bit is shifted out of the word. |
| `CacheModel.ShiftByteFits` | RLU/cache_RLU.c:105-107 | Shifting a byte left by 8 at most seven times never overflows the 64-bit word. |
| `CacheModel.ShiftBytes` | RLU/cache_RLU.c:102-107 | Shifting a byte left by 8, `j` times, gives `byte * 2^(8j)` for `j < 8`. |
| `CacheModel.OrLastByte` | RLU/cache_RLU.c:109 | OR-ing byte `n`, shifted to bit `8n`, into the value of the first `n` bytes gives the value of the first `n+1` bytes, which is below `2^64`. |
| `CacheModel.EncoderByte` | RLU/cache_RLU.c:146-148 | The byte stored for `j`, the masked and shifted tag truncated to a byte, is byte `j-1` of the tag's little-endian encoding. |
| `CacheModel.Cache.constructor` | RLU/cache_RLU.c:48-62 | The buffer holds `10 * E * 2^s` bytes, all zero, so every line starts invalid. |
| `CacheModel.Cache.ReadTag` | RLU/cache_RLU.c:100-111 | The OR of the shifted bytes is the little-endian value of the line's eight tag bytes. |
| `CacheModel.Cache.IsHit` | RLU/cache_RLU.c:92-124 | The result code is that of `Classify` on the buffer, with `idx` the start of the found or free line. The buffer is unchanged. |
| `CacheModel.Cache.ProbeLine` | RLU/cache_RLU.c:96-113 | Reports whether line `i` is valid and whether it is valid and holds the tag. `index` is that line's start. |
| `CacheModel.Cache.UpdateRefs` | RLU/cache_RLU.c:126-136 | The new buffer is `Aged` of the old one. |
| `CacheModel.Cache.AgeLine` | RLU/cache_RLU.c:130-134 | Only the counter of the line at `p` changes, and it becomes `AgedRefs` of the old buffer. |
| `CacheModel.Cache.LoadToFreeLine` | RLU/cache_RLU.c:138-150 | The new buffer is the old one with the tag's eight little-endian bytes written at `idx`. |
| `CacheModel.Cache.ValidCacheLine` | RLU/cache_RLU.c:152-155 | Only byte `idx+8` changes, and it becomes 1. |
| `CacheModel.Cache.InvalidCacheLine` | RLU/cache_RLU.c:157-159 | Only byte `idx+8` changes, and it becomes 0. |
| `CacheModel.Cache.EvictRLU` | RLU/cache_RLU.c:161-172 | The new buffer is `Evicted` of the old one: the victim's tag is overwritten and the set is aged with the victim as the accessed line. |
| `CacheModel.Cache.FindVictim` | RLU/cache_RLU.c:162-168 | The scan returns the start of `Victim`, the first line with the greatest counter. |
| `CacheModel.Cache.Access` | RLU/cache_RLU.c:183-195 | The protocol shared by loads and stores. The result code is `AccessOutcome` and the new buffer is `AccessBytes` of the old buffer. |
| `CacheModel.Cache.InsertLine` | RLU/cache_RLU.c:188-191 | A miss with free slot `j` leaves the buffer as `Inserted`: the tag written, the line valid, the set aged with it as the accessed line. |
| `CacheModel.Cache.LoadData` | RLU/cache_RLU.c:179-196 | The result code is `AccessOutcome` and the new buffer is `AccessBytes` of the old buffer. |
| `CacheModel.Cache.StoreData` | RLU/cache_RLU.c:202-219 | The same as a load: identical result code and new buffer. |
| `TraceDriver.IndexOf` | RLU/cache_RLU.c:69 | The first position at or after `from` holding the character, or the length when there is none. |
| `TraceDriver.HexNumeral` | RLU/cache_RLU.c:64-82 | The value of a lowercase hexadecimal numeral of `n` digits is below `16^n`. |
| `TraceDriver.HexAccumulateExact` | RLU/cache_RLU.c:76-81 | On at most 16 lowercase hex digits, the wrapping accumulation `addr*16 + digit` equals the numeral's value. |
| `TraceDriver.AddressOfNumeral` | RLU/cache_RLU.c:64-82 | When the field between index 3 and the first comma is a lowercase hex numeral, `getaddr` yields its value. |
| `TraceDriver.GetAddr` | RLU/cache_RLU.c:64-82 | Copying into the 16-character buffer, then accumulating up to the NUL, yields `AddressOf` the record. |
| `TraceDriver.CopyAddressField` | RLU/cache_RLU.c:65-73 | The 16-character buffer holds the address field followed by a NUL. |
| `TraceDriver.AccumulateDigits` | RLU/cache_RLU.c:75-81 | The result is the wrapping accumulation of the characters in front of the buffer's first NUL. |
| `TraceDriver.GetBytes` | RLU/cache_RLU.c:84-89 | The character after the first comma, minus `'0'`, as a 64-bit unsigned value. For a decimal digit this is exactly the digit. |
| `TraceDriver.Decompose` | RLU/cache_RLU.c:244-246 | `offset < 2^b`, `set_index < 2^s`, and `addr == tag*2^(s+b) + set_index*2^b + offset`. |
| `TraceDriver.AccessStep` | RLU/cache_RLU.c:249-252 | One access keeps the buffer's geometry. |
| `TraceDriver.Step` | RLU/cache_RLU.c:238-256 | Processing one record keeps the buffer's geometry. |
| `TraceDriver.Run` | RLU/cache_RLU.c:236-302 | Replaying records keeps the buffer's geometry. |
| `TraceDriver.Count` | RLU/cache_RLU.c:283-302 | No result changes nothing. A hit bumps `h`. An insertion bumps `m`. An eviction bumps `m` and `e`. Every bump is modulo 2^32. |
| `TraceDriver.CountsTally` | RLU/cache_RLU.c:283-302 | Bumping the 32-bit counters for one result keeps them equal, modulo 2^32, to the start values plus the unbounded totals. |
| `TraceDriver.TallyCounts` | RLU/cache_RLU.c:283-302 | Counting one access adds exactly one hit or one miss. An eviction is only ever counted along with a miss. |
| `TraceDriver.ProcessRecord` | RLU/cache_RLU.c:237-302 | One record leaves the buffer as `Step` does. The 32-bit counters stay equal, modulo 2^32, to the start values plus `Step`'s totals. |
| `TraceDriver.TraceCache` | RLU/cache_RLU.c:236-302 | After the records, the buffer is `Run`'s buffer, and each counter is its start value plus `Run`'s total, modulo 2^32. |
| `TraceDriver.RunCounts` | RLU/cache_RLU.c:249-302 | Hits plus misses grow by exactly the number of accesses the records ask for (1 for L/S, 2 for M, 0 otherwise). Evictions never grow by more than misses. No total decreases. |
| `TraceDriver.StepCounts` | RLU/cache_RLU.c:238-302 | One record adds to hits plus misses exactly the accesses it asks for. Evictions grow by no more than misses, and no total decreases. |
| `TraceDriver.RunPrefixTotals` | RLU/cache_RLU.c:283-302 | The totals after a prefix of the trace never exceed those after the whole trace. |
| `TraceDriver.InertRecords` | RLU/cache_RLU.c:238-256 | Records that start with `I`, or whose operation letter is not L, S or M, change neither the cache nor the totals. |
| `TraceDriver.ModifyRecord` | RLU/cache_RLU.c:253-256 | For an M record, the store always hits. The load hits exactly when a valid line of the set already holds the tag. Afterwards the tag is still found in the line the load used. |

## Left out

- **File reading.** `fopen`, the `fgets` loop into the 50-byte buffer, and `fclose` are not modelled. Records are given as a sequence of strings with the trailing newline already removed. So a last line that lacks a newline, whose real last character the code would drop, is not modelled, and neither is a line longer than 49 characters being split across two reads.
- **Output.** The verbose output (`printInfo`, `strcpy`/`strcat`/`fprintf`), `printSummary` and `usage` are I/O.
- **Command line.** `main` and its `getopt`/`strtoul` option handling are not modelled. The geometry `s`, `E`, `b` is a constructor argument.
- **Allocation.** A failing `calloc` in `createCache` and `destroyCache`/`free` are not modelled. The buffer is a fresh zeroed array. The `linebits`, `tagbits` and `blockbytes` fields are constants of the model, not stored state.
- **Undefined behaviour in the C**, excluded by preconditions rather than reproduced:
  - an address field longer than 15 characters, which overflows `addrs[16]` (`HasAddressField`);
  - a missing comma;
  - `s + b > 30`, which overflows the `int` shifts `1 << (s+b)` (`ConfigOk`);
  - `E == 0`;
  - a buffer size whose 32-bit product overflows (`ConfigOk` asks `80*E*2^s < 2^32`). That also keeps every line start below 2^29, so the `int max_idx` in `evictRLU` does not truncate.
- **Character arithmetic.** Characters are their code points. `char` is signed in the code, so a non-ASCII byte is sign-extended in `getaddr`/`getbytes`. The model uses code points and does not capture that. Text is treated as ASCII.
- `CacheModel.Cache.UpdateRefs`: `idx` must be the start of a line of the set. Every caller passes one. Behaviour for other values of `idx` is not modelled.
- `CacheModel.Cache.Access`: `loadData` and `storeData` have identical bodies. Both are modelled as wrappers around this one method. Their `offset` and `bytes` arguments have no effect, as in the code.
- `TraceDriver.Step`: the dispatch reads the operation letter at index 1 and the address from index 3 on, as the code does. Records of any other shape are outside `WellFormedRecord`.
- `TraceDriver.Run`, `TraceDriver.Step`, `TraceDriver.AccessStep`: their own contracts state only that the geometry is kept. What they compute is stated by `RunCounts`, `RunPrefixTotals`, `InertRecords` and `ModifyRecord`, and tied to the code by `TraceCache`.
