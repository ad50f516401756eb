# A Dafny model of FreeSWITCH's inline code

FreeSWITCH keeps a good part of its intricate logic in headers: code that is
compiled into every caller. This project models nine pieces of it and proves
what each is for.

* **Bit packing** (`Bits`, `BitStream`, `StreamLaws`, `PackState`, `PackRoom`,
  `Bitpack`).
  Codewords of 1 to 8 bits go into bytes and come back, in the little-endian
  order of section 4.5.4 of RFC 3551 and in the big-endian order of Annex E of
  ITU-T I.366.2. The bit stream is the specification; the class with its
  carry fields is proved to follow it call by call, and the round trip, the
  duality of the two orders and the arithmetic meaning are laws of the stream.
* **Tone synthesis** (`Dds`, `DdsRuns`, `Sines`). A wrapping phase accumulator, a quarter-wave table
  and an unsigned shift that stands for signed scaling, over whole periods.
* **G.711** (`BitOps`, `G711`, `G711Laws`). The bit-level encoders and decoders
  against quantisers written down independently, and their laws over all
  integers.
* **Case mapping and string search** (`Swar`, `CString`). Word-at-a-time
  arithmetic against the mapping of single bytes.
* **String scanners** (`Scan`). In-place rewriting loops against what they are to
  leave behind.
* **Hashing and the hash table** (`Hash`, `HashChains`, `HashMix`,
  `HashGrow`, `HashTable`). The shift-and-add loop as a
  polynomial, and the chained table as a map, through expansions, failed
  allocations and both key comparisons.
* **Interface references** (`Interfaces`, `InterfaceRuns`). The two protection macros as a state
  machine over single statements of any number of threads.
* **Event hooks** (`Hooks`). Heap-linked lists, and what any history of calls
  leaves in them.
* **Glob results** (`GlobStore`, `GlobSpec`, `SimpleGlob`). An argv array that
  switches between offsets and pointers while its string buffer moves.

`Powers` and `CInt` hold the arithmetic that several of these share. Code that
changes state in the source is a class or a method on arrays here, proved against
a specification function; the laws are lemmas about those functions.
`dafny verify dfyconfig.toml` verifies the project.

## Where the code decides

* The packer's documentation promises -1 when the buffer is full. The guard lets
  the cursor stand one past the end, so it never fires for a run that stays within the
  buffer, and a call without room would write outside. `In` and `Out` therefore ask
  for room whenever the guard passes. `PackRoomExactly` and `UnpackRoomExactly` prove that the
  guard always passes and that the calls stay inside the buffer exactly under w * (n + 1) <= 8 * buflen
  and 8 * (n + 1) / w < buflen; `FullPacker` and `FullUnpacker` are full states that are not refused.
* `switch_bitpack_init` accepts width 0, for which the unpacking loop would not end.
  `Init` accepts it too; only widths from 1 on give a usable state (`ZeroWidthGoesOn`).
* Unpacking in RFC 3551 mode reads the reversed mask table at index 8, one past its end,
  when a codeword ends on a byte boundary. The model lets that value be anything.
* A DC offset within [-N/2, 0] holds for all scale factors up to 65535, not only up
  to 32768. Beyond that it depends on the factor, and `BoundedDcExactly` says how.
* Mu-law encodes -3..-1 as negative zero, which decodes to 0 and encodes as positive
  zero. This is the only sample range on which encoding again changes the code.
* The comment on `switch_strstr` calls `s` the inner string. The code looks for `q` in `s`.
* An insertion with HASHTABLE_DUP_CHECK removes the old entry before it allocates the
  new one, so a failed allocation loses the old entry.
* A table that grows when calloc fails but reallocarray succeeds does not clear its new slots: the
  call meant to do so clears memory at the address found in the first of them. A NULL there ends the
  program, and so may any other address (`NullSlotEnds`). `Expand` and `Replay` state exactly when
  the program goes on with its contents.
* The reference count of a module is incremented under the mutex of the interface, so two
  interfaces of one module race. `CounterOfModule` states exactly when the count is right.
* SG_GLOB_FULLSORT is documented to sort the whole array. A filespec without
  wildcards is appended and not sorted in; `FullSortExactly` states when one Add leaves the array
  sorted and `FullSortRun` when a whole run does.
* Reserved slots are documented as the caller's to fill in. A pointer put there before more names are
  added is moved along with the string buffer; `OwnPointer` states when it comes back.
* SG_GLOB_NOCHECK answers success for a missing plain name but "no match" for a pattern,
  although both append the filespec (`NoCheckAdds`).

## What stands for the environment

`glob()`, `stat()`, `realloc()`, `malloc()` and the session pool are parameters that may
answer anything they may in C; the new address of a moved buffer is one of them.
`qsort()` is any function that gives a sorting permutation. Locks are reader and
writer counts with the usual conditions for taking them. Integers are unbounded except
where the source's width matters: bytes in the packer, 32-bit phases, products, hashes and
samples, 16-bit output samples, machine words in the case mapping, single-precision products in the
load limit of the hash table.

## Model

| member | source | states |
|---|---|---|
| `Bitpack.Bitpack.Init` | src/include/switch_bitpack.h:75-92 | -1 and nothing changed for a width over 8, no buffer or an empty one; otherwise a zeroed buffer and a state that has packed nothing and unpacked nothing |
| `Bitpack.Bitpack.In` | src/include/switch_bitpack.h:223-279 | one more codeword: if the state is the packing of `cs`, it becomes the packing of `cs + [c]`, in both modes; -1 and nothing changed when the cursor is past the buffer |
| `Bitpack.Bitpack.InSpill` | src/include/switch_bitpack.h:234-256 | the same for a codeword that is split over two bytes |
| `Bitpack.Bitpack.Done` | src/include/switch_bitpack.h:128-143 | after done the first `bytes` bytes are exactly the zero-padded bit stream of all codewords, and the rest of the buffer is zero |
| `Bitpack.Bitpack.CheckOver` | src/include/switch_bitpack.h:94-122 | the codeword carried over from the last byte is completed with the first bits of the new one |
| `Bitpack.Bitpack.Out` | src/include/switch_bitpack.h:152-214 | one more input byte: if the state has unpacked `ins`, it has unpacked `ins + [b]`; the inner loop ends; the byte beyond the mask table may be anything |
| `Bitpack.Bitpack.OutWhole` | src/include/switch_bitpack.h:193-207 | one turn of the loop takes the next whole codeword of the byte |
| `Bitpack.Bitpack.OutRest` | src/include/switch_bitpack.h:173-190 | the last turn keeps the bits of the codeword that the byte only begins |
| `Bitpack.PackThenUnpack` | src/include/switch_bitpack.h:75-279 | end to end on the class, all widths 1 to 8, both modes, any number of codewords: the codewords come back in order, followed only by zero codewords that fit in the padding |
| `Bitpack.Pack` | src/include/switch_bitpack.h:223-279 | any run of `In` and then `Done` yields the packing of the run |
| `Bitpack.Unpack` | src/include/switch_bitpack.h:152-214 | any run of `Out` yields the complete codewords of the bit stream |
| `StreamLaws.RoundTrip` | src/include/switch_bitpack.h:94-279 | for anything that is a packing of `cs` and anything that is an unpacking of that: the result is `cs` and then zeros, fewer than 8 bits of them |
| `StreamLaws.PackingUnique` | src/include/switch_bitpack.h:128-143 | the packing is determined by the codewords and has ceil(n*w/8) bytes |
| `StreamLaws.UnpackingUnique` | src/include/switch_bitpack.h:152-214 | the unpacking is determined by the bytes and has floor(8B/w) codewords |
| `StreamLaws.ModeDuality` | src/include/switch_bitpack.h:223-279 | AAL2 packing is, byte for byte and padding included, the bit reversal of RFC 3551 packing of the reversed codewords; both directions |
| `StreamLaws.ModeDualityBack` | src/include/switch_bitpack.h:223-279 | and RFC 3551 packing is the bit reversal of AAL2 packing of the reversed codewords |
| `StreamLaws.PackedLittleEndian` | src/include/switch_bitpack.h:223-279 | RFC 3551 bytes read as a little-endian number are the sum of c_i * 2^(i*w) |
| `StreamLaws.PackedBigEndian` | src/include/switch_bitpack.h:128-143 | AAL2 bytes read as a big-endian number are the big-endian concatenation, padded on the right |
| `StreamLaws.StreamInjective` | src/include/switch_bitpack.h:223-279 | different codeword sequences give different bit streams |
| `PackState.PacksLittleEndian` | src/include/switch_bitpack.h:223-279 | after every single call, not only after done, the RFC 3551 buffer read as a number is the sum so far |
| `PackState.PacksDeterminesState` | src/include/switch_bitpack.h:223-279 | codewords, width, mode and buffer size determine every field of a packing state |
| `PackState.PackFill` | src/include/switch_bitpack.h:223-279 | a codeword that leaves room in the byte keeps the packing invariant (shiftby, bits_tot, bytes, buffer) |
| `PackState.PackComplete` | src/include/switch_bitpack.h:223-279 | a codeword that fills the byte keeps it |
| `PackState.PackSpill` | src/include/switch_bitpack.h:223-279 | a codeword over two bytes keeps it |
| `PackState.PackDone` | src/include/switch_bitpack.h:128-143 | finishing a partial byte gives the padded packing |
| `PackState.UnpackCarry` | src/include/switch_bitpack.h:94-122 | joining the carried bits and the new ones gives the next slice of the bit stream |
| `PackState.UnpackWhole` | src/include/switch_bitpack.h:152-214 | a whole codeword inside a byte is a slice of the bit stream |
| `PackState.UnpackRest` | src/include/switch_bitpack.h:152-214 | the rest of a byte is the start of the next codeword, with over + under = width |
| `PackState.UnpacksCells` | src/include/switch_bitpack.h:152-214 | after B bytes the cells are the floor(8B/w) slices of the bit stream, and `bytes` counts them |
| `PackState.UnpacksDeterminesState` | src/include/switch_bitpack.h:64-65 | the input bytes determine every field of an unpacking state, so the entry read past the mask table has no influence |
| `PackState.BlankState` | src/include/switch_bitpack.h:82-90 | what init leaves has packed nothing and unpacked nothing |
| `PackRoom.PackRoomExactly` | src/include/switch_bitpack.h:223-257 | after any run of packing the guard does not refuse the next call; that call stays inside the buffer if and only if w * (n + 1) <= 8 * buflen |
| `PackRoom.FullPacker` | src/include/switch_bitpack.h:228-230 | a full buffer whose next call is not refused and writes behind it, although -1 is documented |
| `PackRoom.UnpackRoomExactly` | src/include/switch_bitpack.h:157-207 | after any run of unpacking the guard does not refuse the next call, whatever its byte; the loop of that call comes round behind the last cell if and only if not 8 * (n + 1) / w < buflen |
| `PackRoom.CellsRunOut` | src/include/switch_bitpack.h:167-207 | without that room the loop takes whole codewords until the cells are used up and then goes on |
| `PackRoom.FullUnpacker` | src/include/switch_bitpack.h:157-207 | one cell holds one codeword of 8 bits, but the call that unpacks it is not refused and its loop comes round behind that cell |
| `PackRoom.ZeroWidthGoesOn` | src/include/switch_bitpack.h:167-208 | with width 0 every turn of the loop is followed by another one, from any state and for any number of turns, until the cells are used up |
| `Dds.DdsState.ModulateSample` | src/include/libteletone_generate.h:156-177 | the sample is the scaled wave at the old phase, and at a scale factor of 2^15 the entry for that phase in the table unfolded to a full turn; the phase advances by the selected rate modulo 2^32; an index past the rates selects the first |
| `Dds.WaveUnfolds` | src/include/libteletone_generate.h:158-173 | the wave goes in order through the table, the table backwards, and the negatives of both, 2^23 phases to an entry |
| `Dds.WaveRises` | src/include/libteletone_generate.h:158-173 | with a table that rises, the wave starts at its first entry, rises through the first quarter turn, falls through the second and is not negative in the first half |
| `Sines.TableRises` | src/lib/libfreeswitch/libteletone_generate.c:82-99 | the table of the library has entries in range, from 201 to 32767, and rises strictly |
| `Sines.ToneStarts` | src/lib/libfreeswitch/libteletone_generate.c:82-99 | with it, the sample at phase 0 and full scale is 201, and the one at the end of the first quarter turn 32767 |
| `Dds.DdsState.ResetAccum` | src/include/libteletone_generate.h:185-188 | the phase is 0 again |
| `Dds.ShiftedPhase` | src/include/libteletone_generate.h:158-171 | the signed shift and the bit masks pick the quadrant and the place in the quarter wave |
| `Dds.UnsignedScaling` | src/include/libteletone_generate.h:176-176 | the unsigned product, shift and cast to 16 bits are the signed floor division cut to 16 bits, for every scale factor |
| `Dds.ScalingExact` | src/include/libteletone_generate.h:176-176 | nothing is cut off for any sample exactly when the scale factor is at most 32769 |
| `Dds.HalfTurn` | src/include/libteletone_generate.h:165-173 | half a turn later the wave is negated |
| `Dds.MirrorTurn` | src/include/libteletone_generate.h:165-167 | each half wave is symmetric |
| `Dds.SamplePair` | src/include/libteletone_generate.h:156-177 | two samples half a turn apart sum to 0 or -1 exactly when the product is not 2^30 modulo 2^31 |
| `Dds.PhaseClosed` | src/include/libteletone_generate.h:175-175 | after n calls the phase is start + n * rate modulo 2^32 |
| `Dds.SumSplit` | src/include/libteletone_generate.h:156-177 | the sum over a run is the sum over its two parts |
| `Dds.RunPair` | src/include/libteletone_generate.h:156-177 | two runs half a turn apart sum to between -n and 0 |
| `Dds.PeriodIsLeast` | src/include/libteletone_generate.h:175-175 | the phase returns after one period and not before |
| `DdsRuns.PeriodGcd` | src/include/libteletone_generate.h:175-175 | the period is 2^32/gcd(rate, 2^32) |
| `Dds.BoundedDc` | src/include/libteletone_generate.h:156-177 | for every table, start phase and nonzero rate, the sum over one period of N samples lies in [-N/2, 0], for every safe scale factor (all up to 65535 among them) |
| `Dds.UnboundedDc` | src/include/libteletone_generate.h:156-177 | for every other scale factor a table and a rate for which it does not |
| `Dds.BoundedDcExactly` | src/include/libteletone_generate.h:156-177 | the bound holds for all tables, phases and rates if and only if the scale factor is no multiple of 2^16 or a multiple of 2^31 |
| `DdsRuns.Modulate` | src/include/libteletone_generate.h:156-177 | n calls on the state yield the samples along the phases; their sum is the sum that the laws speak about, and the phase ends where the closed form says |
| `DdsRuns.OnePeriod` | src/include/libteletone_generate.h:156-177 | a period of calls brings the phase back, and at a safe scale factor the samples sum to between -N/2 and 0 |
| `G711.TopBit` | src/include/g711.h:99-126 | the five masking steps find the index of the highest set bit of every 32-bit word, and -1 for 0 |
| `G711.TopBitIsLog` | src/include/g711.h:99-126 | that index is floor(log2) |
| `G711.SegmentTable` | src/include/g711.h:218-218 | the segment of every magnitude, saturation and the wrapped negative case included |
| `G711.UlawIsReference` | src/include/g711.h:204-252 | encode then decode of the mu-law code is the quantiser written down independently: the middle of the cell of |x| + 132, the sign put back |
| `G711.AlawIsReference` | src/include/g711.h:279-323 | the same for A-law, with -7..-1 and saturation |
| `G711Laws.UlawProjects` | src/include/g711.h:204-252 | decode after encode is idempotent |
| `G711Laws.UlawMonotone` | src/include/g711.h:204-252 | and monotone |
| `G711Laws.UlawOdd` | src/include/g711.h:204-252 | and odd |
| `G711Laws.AlawProjects` | src/include/g711.h:279-323 | idempotent for A-law |
| `G711Laws.AlawMonotone` | src/include/g711.h:279-323 | monotone for A-law, across zero too |
| `G711Laws.UlawError` | src/include/g711.h:204-252 | 32 * |x - x'| <= |x| + 132 if and only if |x| <= 33164 |
| `G711Laws.AlawError` | src/include/g711.h:279-323 | 32 * |x - x'| <= x for x >= 256 if and only if x <= 33296, and |x - x'| <= 8 below 256 |
| `G711Laws.AlawErrorBelowZero` | src/include/g711.h:279-323 | for negative samples at most 7 more than half the step of the segment of -x - 8 |
| `G711Laws.AlawCodeRoundTrip` | src/include/g711.h:279-323 | every A-law code decodes to a sample that encodes to it |
| `G711Laws.UlawCodeRoundTrip` | src/include/g711.h:204-252 | every mu-law code does, except that negative zero becomes positive zero |
| `G711Laws.AlawEncodesAgain` | src/include/g711.h:279-323 | encode, decode, encode is encode |
| `G711Laws.UlawEncodesAgain` | src/include/g711.h:204-252 | the same for mu-law if and only if the sample is not -3..-1 |
| `G711Laws.NegativeZero` | src/include/g711.h:204-234 | exactly the samples -3..-1 get the code of negative zero |
| `G711Laws.KnownCodes` | src/include/g711.h:204-304 | the codes of 0, -1 and the two ends of the 16-bit range, in both laws |
| `G711.UlawCodes` | src/include/g711.h:204-252 | the codes 255 - v and 127 - v stand for the v-th level and its negative |
| `G711.AlawCodes` | src/include/g711.h:279-323 | the codes of the v-th A-law level and its negative are v with the bits of 0x55 flipped, with and without the sign bit |
| `Swar.Map32IsBytewise` | src/include/switch_utils.h:48-65 | the 32-bit word trick maps each byte by ASCII case alone, with no carry or borrow between bytes and high bytes untouched |
| `Swar.Map64IsBytewise` | src/include/switch_utils.h:73-90 | the same for 64 bits |
| `Swar.LanesMapBytes` | src/include/switch_utils.h:48-90 | the same for a word of any number of bytes |
| `Swar.AsciiCase` | src/include/switch_utils.h:48-65 | the map of single bytes, letter by letter: the 26 letters change case and nothing else does |
| `CString.MapCharIsByte` | src/include/switch_utils.h:48-65 | the word function applied to one sign-extended char and cut back is the ASCII case map |
| `CString.MapMax` | src/include/switch_utils.h:92-204 | for a string of any length the word-at-a-time loop, with 4 or 8 bytes, leaves exactly the case-mapped text and every byte from the NUL on as it was |
| `CString.MapWordAt` | src/include/switch_utils.h:92-204 | one word of the loop |
| `CString.MapChars` | src/include/switch_utils.h:750-781 | the character loop of the strdup variants leaves the same |
| `CString.MapStrDup` | src/include/switch_utils.h:750-781 | NULL for NULL; otherwise a new buffer holding the mapped text |
| `CString.FourTests` | src/include/switch_utils.h:793-841 | the four tests together hold if and only if the upper-cased inner string occurs in the upper-cased outer one |
| `CString.OccursMapped` | src/include/switch_utils.h:793-841 | an occurrence survives case mapping |
| `CString.OccursIs` | src/include/switch_utils.h:793-841 | one string occurs in another if and only if the other is the one with something on both sides |
| `CString.StrStr` | src/include/switch_utils.h:793-841 | false for a NULL; otherwise true exactly when upper(q) occurs in upper(s) |
| `Hash.HashDefault` | src/include/switch_hashtable.h:210-222 | the shift-and-add loop computes the sum of c_i * 65599^(n-1-i) modulo 2^32 |
| `Hash.HashDefaultCi` | src/include/switch_hashtable.h:224-236 | the case-insensitive hash is the plain hash of the lower-cased key |
| `Hash.ShiftAddStep` | src/include/switch_hashtable.h:216-219 | one turn of the loop appends one character |
| `Hash.HashStep` | src/include/switch_hashtable.h:210-222 | the hash is 0 for no characters, and each further one multiplies it by 65599 and is added, modulo 2^32 |
| `Hash.HashConcat` | src/include/switch_hashtable.h:210-222 | the hash of a concatenation is a function of the hashes of the parts |
| `HashChains.KeyHash` | src/include/private/switch_hashtable_private.h:48-59 | the mixed hash of the table, computed by the loop of switch_hash_default or switch_hash_default_ci, is the mixed hash of the key, lower-cased if the table does not mind case |
| `HashMix.MixIs` | src/include/private/switch_hashtable_private.h:48-59 | the mixing is multiplication by -511 and by 17, each followed by an exclusive or with a rotation, modulo 2^32 |
| `HashChains.FoldsAlike` | src/include/switch_hashtable.h:200-208 | two keys are the same to a case-insensitive table if and only if they have the same length and the same bytes but for the case of ASCII letters, and to another if and only if they are equal |
| `HashChains.UnitOf` | src/lib/libfreeswitch/switch_hashtable.c:144-144 | the spacing of single-precision numbers at m, in which the load limit is computed: 24 significant bits |
| `HashChains.FloatNearest` | src/lib/libfreeswitch/switch_hashtable.c:144-144 | rounding to single precision gives a multiple of that spacing, at most half of it away |
| `HashChains.LimitNearFactor` | src/lib/libfreeswitch/switch_hashtable.c:144-144 | the load limit is 0.65 of the size up to rounding, for all sizes |
| `HashChains.ScanFindsKey` | src/lib/libfreeswitch/switch_hashtable.c:225-239 | the scan of the one chain that the hash selects finds an entry if and only if the whole table has one with an equal key |
| `HashTable.FindInChain` | src/lib/libfreeswitch/switch_hashtable.c:230-238 | the loop over the chain finds the first entry with this hash and an equal key |
| `HashTable.HashTable.Create` | src/lib/libfreeswitch/switch_hashtable.c:55-90 | fails for a minimum over 2^30; ends the process without memory; otherwise an empty table whose length is the least prime of the list above the minimum |
| `HashGrow.Rehash` | src/lib/libfreeswitch/switch_hashtable.c:106-121 | moving every entry to the chains of a cleared table keeps the entries and puts each where its hash says |
| `HashGrow.Redistribute` | src/lib/libfreeswitch/switch_hashtable.c:130-142 | the in-place loop over a reallocated table whose new slots hold anything: the entries are the old ones and those in the new slots, and each is where its hash says if and only if the latter are |
| `HashGrow.StraysNone` | src/lib/libfreeswitch/switch_hashtable.c:122-142 | growing brings in no entries if and only if the table was cleared or the new slots are empty when the loop begins; it does no harm if and only if, besides, the misdirected clearing lets the program go on undamaged |
| `HashGrow.NullSlotEnds` | src/lib/libfreeswitch/switch_hashtable.c:127-128 | a NULL in the first new slot ends the program in the clearing, even if all new slots are empty |
| `HashGrow.Landings` | src/lib/libfreeswitch/switch_hashtable.c:127-128 | from any other address the clearing ends the program if that cannot be written, damages it if it is in use, and else lets it go on |
| `HashGrow.StrayStays` | src/lib/libfreeswitch/switch_hashtable.c:130-142 | an entry that nobody inserted, in the first new slot when the loop begins, is in the table afterwards |
| `HashTable.HashTable.Expand` | src/lib/libfreeswitch/switch_hashtable.c:93-146 | for each answer of the allocator, calloc, reallocarray or neither: whether the program goes on, ends or is damaged in the clearing, and the contents afterwards; it goes on with the old contents and a sound table if and only if the table does not grow by reallocarray, or does with a clearing that neither ends nor damages the program and with new slots that are then empty; without memory, or at the last prime, nothing changes |
| `HashTable.HashTable.Search` | src/lib/libfreeswitch/switch_hashtable.c:225-239 | absent exactly when no entry has the same key, with or without case as the table says; otherwise the value of such an entry |
| `HashTable.PutThenSearch` | src/lib/libfreeswitch/switch_hashtable.c:192-239 | after an insertion into an empty table a search finds the value exactly for the same key; another spelling of it finds it exactly when the table does not mind case |
| `HashTable.HashTable.Remove` | src/lib/libfreeswitch/switch_hashtable.c:242-248 | takes out one entry with the same key, with or without case as the table says, if there is one, and nothing else |
| `HashTable.HashTable.TakeOut` | src/lib/libfreeswitch/switch_hashtable.c:155-189 | the unlinking behind it |
| `HashTable.HashTable.Insert` | src/lib/libfreeswitch/switch_hashtable.c:192-222 | the fate of the program when the table grows; if it goes on: the entry is added, after taking out an equal one if asked, and whatever growing brings in, and the table is sound if and only if that is nothing; without memory for the entry the contents stay as they were if and only if there was no equal entry to take out |
| `HashChains.RemovalIsMapRemoval` | src/lib/libfreeswitch/switch_hashtable.c:242-248 | with unique keys a removal is a removal from the map |
| `HashChains.InsertionIsMapUpdate` | src/lib/libfreeswitch/switch_hashtable.c:192-222 | with unique keys an insertion with duplicate removal is an update of the map |
| `HashTable.Replay` | src/lib/libfreeswitch/switch_hashtable.c:192-248 | any run of such insertions and removals, through expansions and every answer of the allocator, up to the first call that does harm by growing: if the program goes on, the table has the entries of the map that the calls describe; it goes on with a sound table and no other entries if and only if no call does harm, said in terms of the calls |
| `HashTable.Step` | src/lib/libfreeswitch/switch_hashtable.c:192-248 | one call of such a run, with the exact condition under which it does harm |
| `HashTable.SearchMeans` | src/lib/libfreeswitch/switch_hashtable.c:225-239 | and a search gives the value in that map |
| `Scan.StringVarCheck` | src/include/switch_utils.h:637-659 | when disabling, exactly the dollar signs that start a reference become percent signs; otherwise nothing changes and the answer is whether there is a reference |
| `Scan.StringVarCheckConst` | src/include/switch_utils.h:662-679 | whether the string has a dollar sign, any number of backslashes and a brace |
| `Scan.DisabledHasNone` | src/include/switch_utils.h:637-659 | after disabling there is no reference left |
| `Scan.DisabledSame` | src/include/switch_utils.h:637-659 | disabling changes the string if and only if it has a reference |
| `Scan.VarAtIs` | src/include/switch_utils.h:637-679 | a reference is a dollar sign, later a brace, and nothing but backslashes between |
| `Scan.RewrittenBytes` | src/include/switch_utils.h:637-698 | disabling writes percent signs over the dollar signs of references and cleaning writes blanks over control characters other than line ends, and neither anything else |
| `Scan.CleanCommutes` | src/include/switch_utils.h:637-698 | cleaning and disabling commute |
| `Scan.CleanString` | src/include/switch_utils.h:687-698 | exactly the control characters other than line ends become blanks |
| `Scan.DupClean` | src/include/switch_caller.h:61-61 | blank for NULL; otherwise the copy is cleaned and has no reference, and the order of the two passes does not matter |
| `Scan.SanitizeNumber` | src/include/switch_utils.h:614-635 | the longest suffix without slash and colon of the text before the first at sign |
| `Scan.LastPartLongest` | src/include/switch_utils.h:629-632 | what is left is the longest suffix without slash and colon |
| `Scan.BeforeAt` | src/include/switch_utils.h:626-627 | of the text before the first at sign |
| `Scan.CutAtSigns` | src/include/switch_utils.h:626-627 | the loop cuts at the first at sign |
| `Scan.SkipPast` | src/include/switch_utils.h:629-632 | each loop moves behind the last such character |
| `Interfaces.Safety` | src/include/switch_module_interfaces.h:746-747 | in every state of every interleaved run: read locks on a module are at least those on its interfaces; refs is the number of outstanding protections whenever the mutex is free; a writer on the module excludes every reader and every protection of its interfaces |
| `InterfaceRuns.ModuleWriterExcludes` | src/lib/libfreeswitch/switch_loadable_module.c:1859-1880 | in every run, from the step that takes the write lock on a module until one that gives it back: the lock is held, nobody has a read lock on the module, no protection of its interfaces is out, and no thread on one of them is past the first statement of the protecting macro or before the third of the other |
| `InterfaceRuns.InterfaceWriterExcludes` | src/lib/libfreeswitch/switch_loadable_module.c:882-883 | the same for the write lock on an interface |
| `InterfaceRuns.WriterComesAndGoes` | src/lib/libfreeswitch/switch_loadable_module.c:1859-1880 | a lock that nobody holds can be taken for writing and given back, which changes nothing else |
| `InterfaceRuns.Protects` | src/include/switch_module_interfaces.h:746-746 | a thread that finds the mutex free and no writers can protect the interface, and that adds one to refs, to the read locks of interface and module and to the count of the module |
| `InterfaceRuns.Unprotects` | src/include/switch_module_interfaces.h:747-747 | a protection can be taken back, writers or not, and that undoes it |
| `InterfaceRuns.ProtectionRoundTrip` | src/include/switch_module_interfaces.h:746-747 | a protection followed by its unprotection, by whatever threads, is a run that changes nothing |
| `Interfaces.StepInv` | src/include/switch_module_interfaces.h:746-747 | every micro-step of every thread, and every writer, keeps the invariant behind it |
| `Interfaces.RunInv` | src/include/switch_module_interfaces.h:746-747 | so does every run |
| `Interfaces.ProtectIsBalanced` | src/include/switch_module_interfaces.h:746-746 | each statement of the protecting macro moves the counters as the invariant says |
| `Interfaces.UnprotectIsBalanced` | src/include/switch_module_interfaces.h:747-747 | each statement of the other macro does |
| `Interfaces.OtherWriters` | src/lib/libfreeswitch/switch_loadable_module.c:1859-1880 | writers that come and go on free locks keep the invariant |
| `Interfaces.LostUpdate` | src/include/switch_module_interfaces.h:746-746 | a run of two threads that ends quiet with the module counting one reference and its interfaces two |
| `Interfaces.CounterOfModule` | src/include/switch_module_interfaces.h:746-747 | in every quiet state of every run the module's counter is the sum of its interfaces' counters, if and only if there is at most one thread, increments are atomic, or no module has two interfaces |
| `Hooks.HookList.AddHook` | src/include/switch_core_event_hook.h:182-199 | FALSE if and only if the hook is there, MEMERR if and only if it is not and there is no memory, otherwise the list with the hook at its end; the heap nodes stay distinct, acyclic and free of duplicates |
| `Hooks.HookList.RemoveHook` | src/include/switch_core_event_hook.h:200-216 | SUCCESS if the hook was there, and the list without it; otherwise FALSE and the list as it was |
| `Hooks.HookList.Append` | src/include/switch_core_event_hook.h:189-197 | linking a new node behind the last one |
| `Hooks.HookList.Unlink` | src/include/switch_core_event_hook.h:204-212 | unlinking any node, the first included |
| `Hooks.Replay` | src/include/switch_core_event_hook.h:182-216 | the linked list follows every history of calls, and every answer says whether the hook was there, in terms of the calls before |
| `Hooks.History` | src/include/switch_core_event_hook.h:182-216 | after any history: no duplicates; exactly the hooks added and not removed since, said in terms of the calls alone; in the order of the additions that put them there |
| `SimpleGlob.Glob.constructor` | src/include/SimpleGlob.h:547-555 | a usable object if and only if there are no reserved slots or there is memory for them; then a list of empty reserved slots |
| `SimpleGlob.Glob.Init` | src/include/SimpleGlob.h:565-583 | the list becomes the reserved empty slots; memory error exactly when the array must grow and cannot, after which the object is usable if and only if the old array happens to be exactly that many NULLs |
| `SimpleGlob.Glob.SetArgvArrayType` | src/include/SimpleGlob.h:717-734 | converting every word in place leaves the list and the places of all strings as they were |
| `SimpleGlob.ConvertKeeps` | src/include/SimpleGlob.h:717-734 | offsets to pointers and pointers to offsets are inverse, NULL included |
| `SimpleGlob.Moved` | src/include/SimpleGlob.h:753-768 | while the words are offsets the buffer may move anywhere |
| `SimpleGlob.OwnPointer` | src/include/SimpleGlob.h:717-734 | a pointer that the caller put into a reserved slot comes back from an Add if and only if it is NULL, or the buffer has not moved and it is not the byte before the buffer |
| `SimpleGlob.OwnPointerRun` | src/include/SimpleGlob.h:717-734 | over any number of Adds such a pointer moves with the buffer, and comes back if and only if the buffer is where it was |
| `SimpleGlob.Glob.GrowArgvArray` | src/include/SimpleGlob.h:736-751 | room for the new length, old contents kept; without memory nothing changes |
| `SimpleGlob.Glob.GrowStringBuffer` | src/include/SimpleGlob.h:753-768 | the same for the buffer, at any new address |
| `SimpleGlob.Doubled` | src/include/SimpleGlob.h:740-743 | the doubling loops end with more than is needed and at most twice that, the initial size or twice the old size |
| `SimpleGlob.Glob.AppendName` | src/include/SimpleGlob.h:667-715 | an entry passed over or out of memory leaves the list; otherwise exactly its name, with a slash for a marked directory, is added at the end; memory error exactly when a needed growth fails |
| `SimpleGlob.Glob.AppendKept` | src/include/SimpleGlob.h:689-715 | the part behind the special cases |
| `SimpleGlob.Glob.Enter` | src/include/SimpleGlob.h:702-712 | the bytes of the new entry go behind all others |
| `GlobStore.AppendedNames` | src/include/SimpleGlob.h:702-714 | appending adds one name and leaves the others |
| `GlobStore.AppendedApart` | src/include/SimpleGlob.h:702-714 | the strings stay in disjoint parts of the buffer |
| `GlobStore.RearrangedNames` | src/include/SimpleGlob.h:649-649 | reordering the words reorders the names alike |
| `GlobStore.RearrangedApart` | src/include/SimpleGlob.h:649-649 | and keeps the strings disjoint |
| `GlobStore.LeTotal` | src/include/SimpleGlob.h:770-779 | the comparison is total |
| `GlobStore.LeTransitive` | src/include/SimpleGlob.h:770-779 | and transitive |
| `GlobStore.LeAt` | src/include/SimpleGlob.h:770-779 | at the first byte in which two names differ, case aside, the smaller one decides, and a name that ends there comes first |
| `GlobStore.LeBoth` | src/include/SimpleGlob.h:770-779 | two names are equal to the order if and only if they differ in nothing but the case of ASCII letters |
| `GlobStore.NullFirst` | src/include/SimpleGlob.h:777-778 | NULL sorts first |
| `GlobStore.SorterExists` | src/include/SimpleGlob.h:649-649 | there is a sorting function as assumed of qsort |
| `SimpleGlob.Glob.Sort` | src/include/SimpleGlob.h:648-649 | the slots from `start` on become a sorted permutation, for any sorting function |
| `SimpleGlob.Glob.AddMatches` | src/include/SimpleGlob.h:633-652 | the matches up to a memory error, filtered, appended and sorted |
| `SimpleGlob.Glob.Add` | src/include/SimpleGlob.h:585-653 | for every answer of stat(), glob() and the allocator: the status and the list that `Added` allows |
| `SimpleGlob.Glob.AddAll` | src/include/SimpleGlob.h:655-665 | one Add after the other up to the first that does not succeed |
| `SimpleGlob.Glob.File` | src/include/SimpleGlob.h:496-505 | the pointer is NULL exactly for an empty slot, and otherwise points into the buffer at the NUL-terminated name |
| `GlobSpec.NoCheckAdds` | src/include/SimpleGlob.h:601-632 | with SG_GLOB_NOCHECK, memory and nothing that matches: an Add leaves the list with the filespec added as it is, unless only directories are wanted, and calls that a success if and only if it has no wildcard; this and nothing else |
| `GlobSpec.FailedAdds` | src/include/SimpleGlob.h:601-632 | without SG_GLOB_NOCHECK nothing that matches is "no match", other failures of glob() are passed on, and neither changes the list; this and nothing else |
| `GlobSpec.PlainAdds` | src/include/SimpleGlob.h:601-612 | a plain name that is there is added, with a slash if it is a directory to be marked, unless the filters pass it over; this and nothing else |
| `GlobSpec.KeptPath` | src/include/SimpleGlob.h:350-357 | what becomes of a path of glob() under the filters and the mark, in terms of the path |
| `GlobSpec.WildcardIs` | src/include/SimpleGlob.h:603-603 | a filespec is a pattern if and only if it has a star or a question mark |
| `GlobSpec.PlacedKeeps` | src/include/SimpleGlob.h:585-653 | no Add loses or invents a name or touches the reserved slots |
| `GlobSpec.AddedGroup` | src/include/SimpleGlob.h:585-653 | a successful Add adds one group: a permutation of the matches that pass the filters, sorted unless switched off |
| `GlobSpec.RunGroups` | src/include/SimpleGlob.h:585-665 | after any run of successful Adds the list has grown by the concatenation of one group per Add, in order |
| `SimpleGlob.Collect` | src/include/SimpleGlob.h:547-665 | on the class from construction on: reserved slots, then the groups; with SG_GLOB_FULLSORT all names, sorted exactly under the condition of FullSortRun |
| `GlobSpec.FullSortExactly` | src/include/SimpleGlob.h:601-650 | with SG_GLOB_FULLSORT a successful Add leaves a sorted list if and only if it had a wildcard and kept something, or the list was sorted and it kept nothing or a name that belongs at the end |
| `GlobSpec.FullSortRun` | src/include/SimpleGlob.h:585-665 | over any run of successful Adds: all names are there and none else, and the list is sorted in the end if and only if some Add sorted it, or it was sorted to begin with, and the names appended since are sorted and belong behind all others |
| `GlobSpec.RunFullSort` | src/include/SimpleGlob.h:585-665 | the list after such a run: the names up to the last sort, sorted, and behind them the names appended since, in order |
| `GlobSpec.LastSortIs` | src/include/SimpleGlob.h:644-650 | which Add was the last to sort |
| `GlobSpec.FullSortFails` | src/include/SimpleGlob.h:601-612 | adding "b" and then "a" leaves them in that order |

## Left out

- `bottom_bit` and the assembly variants of `top_bit`: no codec uses the former, and the latter are taken to do what the portable code does.
- `alaw_to_ulaw` and `ulaw_to_alaw`, and the optional ULAW_ZEROTRAP, which is switched off in the header.
- `teletone_dds_phase_rate`, `teletone_dds_state_set_tx_level` and the detectors: floating point; the rates and the scale factor are arbitrary here.
- Bitpack.Bitpack.Done: is modelled for packing; on an unpacker with a codeword begun it would read the last input byte again.
- Bitpack.Bitpack.In: asks for room in the buffer whenever the guard passes, because the code would write past the end; see above.
- Bitpack.Bitpack.Out: asks for room likewise.
- Interface macros called with NULL, which do nothing; lock fairness and deadlock; writers take a lock only when it is free, as `trywrlock` does.
- HashTable.HashTable.Expand: says nothing about a table once the misdirected clearing has ended the program or overwritten memory in use; where it lands is an answer of the environment.
- HashTable.HashTable.Insert: chains are sequences and not linked nodes, so aliasing between nodes is not captured; the entry count does not wrap at 2^32.
- HashTable.Replay: stops at the first call that does harm; what later calls do to a table with entries nobody inserted is not modelled.
- Iterating over and destroying a hash table, and what destructors do: they would add easy members.
- Equality by strcasecmp is ASCII case equality, as in the C locale, both for hash keys and for sorting.
- Hooks.Replay: one list of hooks stands for the twelve that the macro makes; sessions and their other fields are not modelled.
- `switch_strchr_strict` and the other helpers of `switch_utils.h`, and the STUN macros.
- SimpleGlob on Windows, wide characters and the path prefix, which is empty on Unix; SG_GLOB_ERR and SG_GLOB_TILDE, which only go on to `glob()`.
- SimpleGlob.Doubled: does not model overflow of the doubled sizes.
- SimpleGlob.Glob.Init: a negative number of reserved slots is not modelled.
- SimpleGlob.Glob.Add: has the reserved slots empty; what becomes of a caller's own pointers in them is stated for the conversions alone.
- Everything of FreeSWITCH that is not inline code in these headers, except the hash table behind one of them.
