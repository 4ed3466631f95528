# Verified model of the fake-linker's linker core

fake-linker re-implements large parts of Android's dynamic linker in C++. Many of these parts are fast or
compact forms of something simple: a vectorised hash, a Bloom filter in front of a hash table, bitmap-coded
relocation lists, free lists kept inside the free memory itself. This project models them in Dafny, for the
64-bit little-endian RELA build without memory tagging, and proves that each agrees with what it stands for.

| file | what it models |
|---|---|
| `GnuHash.dfy` | the vector form of the GNU symbol hash against the scalar loop |
| `Crc.dfy` | table-driven CRC32 and CRC64 against polynomial division, and what they detect |
| `ElfHash.dfy`, `SymbolLookup.dfy` | the two hash tables, symbol versions, and the search through a list of libraries |
| `Memory.dfy`, `Relr.dfy`, `Sleb128.dfy`, `PackedRelocs.dfy` | the two compressed forms of relocation lists, each against an encoder |
| `PackedRelocation.dfy` | relocating straight from a packed list, against the plain list |
| `Relocations.dfy`, `RelocEngine.dfy` | relocation processing in its three modes, with the one-symbol cache |
| `HookRelocs.dfy` | re-relocation of a loaded library towards a hook library's exports |
| `LinkedList.dfy`, `DependencyWalk.dfy` | the deduplicating list, and the breadth-first walk built on two of them |
| `BlockAllocator.dfy` | the block allocator with its runs of free blocks |
| `Pages.dfy`, `ProgramHeaders.dfy` | rounding, program headers, the range they span |
| `AddressSpace.dfy` | reserving an aligned, randomly placed region, with a gap behind it |
| `Compat16K.dfy`, `SegmentLoader.dfy` | loading the segments, also in 16 KiB compatibility mode |
| `RelroSharing.dfy` | replacing read-only pages by equal pages of a file |
| `Words.dfy`, `Bitwise.dfy`, `Powers.dfy`, `Options.dfy` | machine words, bitwise operations, powers, and values that may be missing |

Code that changes things step by step is imperative here too: classes with the source's fields, methods with its
loops. Such a method is tied by its contract to a function or to a property, and the lemmas beside it say what
that function is worth. The kernel's answers (where a mapping goes, whether it succeeds), random draws, symbol
resolvers and the accessibility of libraries are parameters. Words wrap where they do in the source.

## What does not hold

Some properties one would expect fail for some inputs. The code is modelled as it is; the lemmas named give such an
input, and say exactly when the code does what is expected.

- The boundary test of `LoadSegments` ignores the offset of a file inside an archive, so a segment is accepted that
  runs past the end of the archive (`SegmentLoader.PastTheArchive`). In either mode a loaded segment has all its
  contents if and only if it ends inside (`SegmentLoader.ContentsExactly`). Outside compatibility mode zeros follow up
  to the end of the archive's last page, and nothing behind that page (`SegmentLoader.ContentByte`).
- If such a segment is writable, clearing the rest of its last page may fault (`SegmentLoader.FillPastTheArchive`). It
  does so if and only if the contents end past the archive's last page, and not on a page
  (`SegmentLoader.FaultsExactly`); a segment that ends inside never does (`SegmentLoader.IntactNeverFaults`).
- Bss of a segment that is not writable is not cleared up to the end of the last page of contents; what is there is
  what the file goes on with (`SegmentLoader.LoadedImage`), which need not be zeros (`SegmentLoader.BssOfOnes`). The
  whole image is the one described if and only if the contents end inside the archive and the file goes on with zeros
  there (`SegmentLoader.ImageExactly`).
- In compatibility mode only the start of RELRO is compared with its segment. If it claims more than its segment has,
  the size of the RW part may wrap, and both assertions still hold (`Compat16K.OversizedRelro`). The parts share out
  the reservation of an accepted table if and only if the boundary's page is neither below the lowest segment's page
  nor more than a page past the end of the highest segment (`Compat16K.PartitionExactly`; with wrap-around,
  `Compat16K.SharesOutBySize`). RELRO that ends in its segment is one such case (`Compat16K.PartsShareOut`).
- The comment there lists the layouts that are accepted, code before data. The code accepts code behind data as well
  (`Compat16K.CodeAfterData`). With RELRO in its segment, everything that is not RW ends before the boundary if and
  only if it stands before the RW segments in the table (`Compat16K.RxBeforeBoundaryExactly`); what stands behind them
  comes to lie in the RW part (`Compat16K.SideOfBoundary`).
- The code also dereferences a null pointer exactly when a table has neither RW segment nor RELRO
  (`Compat16K.IsEligible`, `Compat16K.NullForCodeOnly`).
- `ReserveWithAlignmentPadding` says that the rounded region overlaps nothing. With a gap this needs room that is
  there for every alignment up to 2 MiB, the only ones its caller asks for, and not for larger ones
  (`AddressSpace.RoomExactly`, `AddressSpace.NoRoomForOnePage`).
- A block allocator for blocks larger than a page less its header hands out blocks that run past the page
  (`BlockAllocator.HasRoom`, `BlockAllocator.LinkerBlockAllocator.AllocWithoutRoom`).
- `free` does not notice that a block is free already, or that an address inside a page is not a block. After it gave
  something back the allocator is in order if and only if that was a live block; otherwise no free runs and no set of
  live blocks fit the memory it leaves (`BlockAllocator.LinkerBlockAllocator.Free`, `BlockAllocator.TwiceFree`).
- The header says that `purge` needs all blocks to be free. Before API 29 there is no count, and it unmaps pages with
  live blocks as well (`BlockAllocator.LinkerBlockAllocator.Purge`).
- `phdr_table_map_gnu_relro` notices that a file is too short by an unsigned difference. An offset past the end of the
  file, on a page or not, makes it wrap, and the comparison then leaves the file's mapping
  (`RelroSharing.Process.MapGnuRelro` says exactly when, `RelroSharing.OffsetPastFile` for one page of RELRO).
- A slot keeps the value of a redirected relocation, whatever the values are, if and only if no later slot overlaps it
  (`HookRelocs.KeepsExactly`); two slots half a word apart do overlap (`HookRelocs.HalfAWordApart`). That running the
  passes twice changes nothing holds in any case (`HookRelocs.Idempotent`).
- More than ten continued bytes make `pop_front` shift by more than the word has, which C++ leaves undefined;
  `Sleb128.Decoder.PopFront` tells this end apart, and no encoding of a 64-bit value comes to it.

## Model

| member | source | states |
|---|---|---|
| `GnuHash.CalculateGnuHash` | library/src/main/cpp/linker/linker_util.cpp:306-314 | The shift-and-add loop computes the hash `h = 33h + c` of the name, mod 2^32 |
| `GnuHash.OfPrintf` | library/src/main/cpp/linker/linker_util.cpp:306-314 | The hash of "printf" is 0x156b2bb8 |
| `GnuHash.CalculateGnuHashNeon` | library/src/main/cpp/linker/linker_gnu_hash_neon.cpp:86-213 | For every NUL-terminated name at every alignment, whatever bytes surround it in its 8-byte chunks, the vector code returns the scalar hash and the name's length, and reads whole aligned chunks only |
| `GnuHash.AbsorbChunks` | library/src/main/cpp/linker/linker_gnu_hash_neon.cpp:147-167 | The loop ends at a chunk with a NUL, and the accumulators then stand for everything in front of that chunk |
| `GnuHash.Turn` | library/src/main/cpp/linker/linker_gnu_hash_neon.cpp:155-166 | One turn absorbs a chunk without NUL, and the next chunk is inside memory |
| `GnuHash.Finish` | library/src/main/cpp/linker/linker_gnu_hash_neon.cpp:171-212 | From the chunk with the NUL come the hash of the whole name and its length |
| `GnuHash.FirstLoad` | library/src/main/cpp/linker/linker_gnu_hash_neon.cpp:133-141 | The masked first chunk is the name's chunk with 0xff in front, and the initial accumulator makes up for it |
| `GnuHash.TestNul` | library/src/main/cpp/linker/linker_gnu_hash_neon.cpp:149-153 | The loop is left exactly when one of the eight bytes is NUL |
| `GnuHash.AbsorbChunk` | library/src/main/cpp/linker/linker_gnu_hash_neon.cpp:155-163 | Absorbing a chunk keeps `total = lo*33^4 + hi`: it stays congruent to the polynomial of everything read |
| `GnuHash.MulStep8` | library/src/main/cpp/linker/linker_gnu_hash_neon.cpp:156-157 | The vector multiplication advances the sum of an accumulator's lanes by 33^8 mod 2^32 |
| `GnuHash.AddBytes` | library/src/main/cpp/linker/linker_gnu_hash_neon.cpp:162-163 | The multiply-add weighs four bytes into that sum with 33^3, 33^2, 33 and 1 |
| `GnuHash.CountValidBits` | library/src/main/cpp/linker/linker_gnu_hash_neon.cpp:171-175 | Counting leading zeros of the reversed mask gives eight times the bytes in front of the NUL |
| `GnuHash.MeetAccumulators` | library/src/main/cpp/linker/linker_gnu_hash_neon.cpp:177-193 | The two table factors bring both accumulators to the same power of 33 |
| `GnuHash.WeighTail` | library/src/main/cpp/linker/linker_gnu_hash_neon.cpp:195-207 | The window into the incline table weighs exactly the bytes in front of the NUL and nothing behind it |
| `GnuHash.AbsorbTail` | library/src/main/cpp/linker/linker_gnu_hash_neon.cpp:177-210 | The rest of the name is absorbed, and the lanes add up to the hash of the whole |
| `GnuHash.StepIsPower` | library/src/main/cpp/linker/linker_gnu_hash_neon.cpp:51-62 | Each step constant is that power of 33 mod 2^32 |
| `GnuHash.PaddingCancels` | library/src/main/cpp/linker/linker_gnu_hash_neon.cpp:96-131 | For each of the eight alignments the table's accumulator cancels the 0xff bytes: after them it is 5381 again |
| `GnuHash.ChunkStep` | library/src/main/cpp/linker/linker_gnu_hash_neon.cpp:155-163 | Multiplying both lane sums by 33^8 and adding the weighed halves of a chunk is hashing its eight bytes, mod 2^32 |
| `GnuHash.AccumulatorsMeet` | library/src/main/cpp/linker/linker_gnu_hash_neon.cpp:191-193 | After the final multiplication the sum is 33^n times the hash so far |
| `GnuHash.TailDot` | library/src/main/cpp/linker/linker_gnu_hash_neon.cpp:195-207 | The weighted tail is the polynomial of the first n bytes |
| `GnuHash.LeadingBytes` | library/src/main/cpp/linker/linker_gnu_hash_neon.cpp:171-175 | The bit count finds the first NUL, though later bytes may be NUL too |
| `Crc.Init` | library/src/main/cpp/linker/xz/xz_crc32.c:23-34 | Every table entry is the register of that byte after eight bit steps |
| `Crc.Calculate` | library/src/main/cpp/linker/xz/xz_crc32.c:35-42 | The table-driven loop computes the bit-at-a-time CRC of the buffer from any starting value |
| `Crc.CheckIsRemainder` | library/src/main/cpp/linker/xz/xz_crc32.c:35-42 | The check value is the remainder of the message by the generator polynomial modulo 2, with the register inverted before and after |
| `Crc.FeedDivides` | library/src/main/cpp/linker/xz/xz_crc32.c:23-42 | Feeding bits is polynomial division: message plus start value is a multiple of the generator plus the register |
| `Crc.OneRemainder` | library/src/main/cpp/linker/xz/xz_crc32.c:23-42 | There is no other remainder |
| `Crc.BitOfByte` | library/src/main/cpp/linker/xz/xz_crc32.c:38 | The bits of a byte enter lowest first |
| `Crc.Lookup` | library/src/main/cpp/linker/xz/xz_crc32.c:38 | One table lookup feeds one byte of the message |
| `Crc.MaskIsBranch` | library/src/main/cpp/linker/xz/xz_crc32.c:30 | The branch-free step is the polynomial division step it stands for |
| `Crc.StepsLinear` | library/src/main/cpp/linker/xz/xz_crc32.c:30 | Any number of bit steps is linear over exclusive or |
| `Crc.TableByte` | library/src/main/cpp/linker/xz/xz_crc64.c:34 | Eight steps split into a table part and a shift |
| `Crc.Continues` | library/src/main/cpp/linker/xz/xz_crc64.c:31-38 | Continuing composes: the CRC of a+b is the CRC of b continued from that of a |
| `Crc.FeedDetectsBurst` | library/src/main/cpp/linker/xz/xz_crc32.c:23-42 | Messages that differ only in a window of at most the register's width of bits get different registers |
| `Crc.DetectsBurst` | library/src/main/cpp/linker/xz/xz_crc64.c:15-38 | Buffers that differ only in a window of at most 4 bytes (8 bytes for the 64-bit form) have different CRCs, from any starting value |
| `Crc.Instances` | library/src/main/cpp/linker/xz/xz_crc32.c:24 | The two polynomials are those of the source, and both meet what the detection results need |
| `Relr.Image.ApplyRelrReloc` | library/src/main/cpp/linker/linker_relocate.cpp:542-547 | One relocation adds the bias to its word, with wrap-around |
| `Relr.Image.RelocateBitmap` | library/src/main/cpp/linker/linker_relocate.cpp:576-584 | A bitmap relocates the words its bits stand for, lowest bit first |
| `Relr.Image.RelocateRelr` | library/src/main/cpp/linker/linker_relocate.cpp:559-591 | The memory after the loop is that of relocating the decoded list in order |
| `Relr.DecodeEncode` | library/src/main/cpp/linker/linker_relocate.cpp:559-591 | Decoding undoes the reference encoder for every strictly increasing list of word offsets |
| `Relr.DecodedExactly` | library/src/main/cpp/linker/linker_relocate.cpp:559-591 | A word is relocated if and only if an even entry is its offset, or bit j of an odd one is set whose window has it j - 1 words after its start |
| `Relr.GrowsByBias` | library/src/main/cpp/linker/linker_relocate.cpp:542-547 | The word at offset plus bias grows by the bias, both mod 2^64 |
| `Relr.Image.RelocateEntry` | library/src/main/cpp/linker/linker_relocate.cpp:560-590 | One entry: its words are relocated and the window moves on |
| `Relr.WindowDecodes` | library/src/main/cpp/linker/linker_relocate.cpp:576-588 | A bitmap entry stands for exactly the listed words of its 63-word window |
| `Relr.ListedOnce` | library/src/main/cpp/linker/linker_relocate.cpp:542-547 | Each listed word gets the bias added exactly once |
| `Relr.Untouched` | library/src/main/cpp/linker/linker_relocate.cpp:542-547 | No byte outside the listed words changes |
| `Relr.EncodedEffect` | library/src/main/cpp/linker/linker_relocate.cpp:559-591 | Encoding a list and relocating from it: bias added once at each listed word, all else unchanged |
| `Sleb128.Decoder.PopFront` | library/src/main/cpp/linker/linker_sleb128.h:42-63 | Pops the signed value of section 7.6 of DWARF 4, mod 2^64, and leaves the reader behind it; tells running out and shifting past the word apart |
| `Sleb128.PopEncoded` | library/src/main/cpp/linker/linker_sleb128.h:42-63 | Decoding undoes encoding for every 64-bit value, in at most ten bytes, and leaves what follows |
| `Sleb128.EncodeShape` | library/src/main/cpp/linker/linker_sleb128.h:49-60 | The encoding denotes its value, and only its last byte lacks the continuation bit |
| `Sleb128.Examples` | library/src/main/cpp/linker/linker_sleb128.h:49-60 | The examples of section 7.6 of DWARF 4 |
| `Sleb128.AppendByte` | library/src/main/cpp/linker/linker_sleb128.h:53-55 | The bitwise or of seven more bits, shifted in a word, appends a digit, and drops what does not fit the word |
| `Sleb128.SignExtend` | library/src/main/cpp/linker/linker_sleb128.h:58-60 | With ones above its bits a word is the two's complement of a negative value; from ten bytes on it is complete |
| `Sleb128.ExtendOnes` | library/src/main/cpp/linker/linker_sleb128.h:58-60 | The bitwise or with minus the shifted one puts ones above the value's bits and keeps those |
| `Sleb128.AppendDigit` | library/src/main/cpp/linker/linker_sleb128.h:53-55 | One turn of the loop, mask and or included, appends a digit |
| `Sleb128.ExtendSign` | library/src/main/cpp/linker/linker_sleb128.h:58-60 | After the last byte, with its sign tested by a mask, the word is that of the signed value |
| `Sleb128.OrAppends` | library/src/main/cpp/linker/linker_sleb128.h:54 | Or-ing in above the value's bits is adding mod 2^64, for every shift in the word |
| `Sleb128.LowBitsOf` | library/src/main/cpp/linker/linker_sleb128.h:54-58 | What the masks 127, 128 and 64 take from a byte |
| `PackedRelocs.ForAllPackedRelocs` | library/src/main/cpp/linker/linker_relocate.h:39-100 | Terminates on every stream; the callback sees a prefix of calls it accepted; on the encoding of groups with any flags it is called with exactly their relocations in order, all of them if it accepts them |
| `PackedRelocs.PopStart` | library/src/main/cpp/linker/linker_relocate.h:41-45 | Count and start offset come back |
| `PackedRelocs.PopGroup` | library/src/main/cpp/linker/linker_relocate.h:48-96 | One group comes back, and consumes input even when it is empty |
| `PackedRelocs.PopSizeAndFlags` | library/src/main/cpp/linker/linker_relocate.h:48-49 | Size and flag word of a group come back |
| `PackedRelocs.PopShared` | library/src/main/cpp/linker/linker_relocate.h:51-69 | What the header shares comes back for each setting of the flags |
| `PackedRelocs.PopBody` | library/src/main/cpp/linker/linker_relocate.h:77-94 | The relocations of a group come back in order |
| `PackedRelocs.PopReloc` | library/src/main/cpp/linker/linker_relocate.h:78-90 | One relocation comes back from its deltas |
| `PackedRelocs.PassReloc` | library/src/main/cpp/linker/linker_relocate.h:78-93 | It is handed to the callback once, whose refusal ends decoding |
| `PackedRelocs.PassNext` | library/src/main/cpp/linker/linker_relocate.h:77-94 | One turn of the inner loop leaves the rest of the group to be decoded and the calls a prefix of the list |
| `PackedRelocs.EveryListEncodes` | library/src/main/cpp/linker/linker_relocate.h:39-100 | Every list of relocations has an encoding, so the round trip is about all lists |
| `PackedRelocs.FlagsAre` | library/src/main/cpp/linker/linker_relocate.h:33-36 | The four flags are the bits 1, 2, 4 and 8 of the flag word |
| `PackedRelocs.GroupOnTheWire` | library/src/main/cpp/linker/linker_relocate.h:48-69 | The fields of a group's header in the order of the stream, each there if its bit says so |
| `PackedRelocs.RelocOnTheWire` | library/src/main/cpp/linker/linker_relocate.h:78-90 | The same of one relocation |
| `PackedRelocation.PackedRelocate` | library/src/main/cpp/linker/linker_relocate.cpp:493-498 | Relocating straight from an encoded stream, in each of the three modes and however the list was grouped, leaves the memory and the result of the plain list, also when a relocation fails; the symbol cache stays fresh; every other stream ends as well |
| `PackedRelocation.RelocateGroup` | library/src/main/cpp/linker/linker_relocate.h:48-96 | A group has the effect of its relocations in order, and the stream is behind it unless one of them failed |
| `PackedRelocation.RelocateBody` | library/src/main/cpp/linker/linker_relocate.h:77-94 | The same of the inner loop, from any relocation on |
| `PackedRelocation.RelocateOne` | library/src/main/cpp/linker/linker_relocate.h:78-93 | A relocation read from its deltas has the meaning of the one that was encoded |
| `PackedRelocation.UnpackIs` | library/src/main/cpp/linker/linker_relocate.cpp:95-107 | The info word holds the symbol in its upper half and the type in its lower |
| `PackedRelocation.EffectOfTwo` | library/src/main/cpp/linker/linker_relocate.cpp:493-498 | What two groups mean is what the first means and then the second, unless the first fails |
| `RelocEngine.Relocator.LookupSymbol` | library/src/main/cpp/linker/linker_relocate.cpp:59-91 | The one-symbol cache cannot be seen: it is empty or what a fresh lookup would give, before and after |
| `RelocEngine.Relocator.ProcessRelocation` | library/src/main/cpp/linker/linker_relocate.cpp:95-471 | In each of the three modes a relocation has one and the same effect; it succeeds exactly when its name, symbol, type and place allow, and then its place holds the value of its type and nothing else changed |
| `RelocEngine.Relocator.ProcessTls` | library/src/main/cpp/linker/linker_relocate.cpp:344-432 | The thread-local types, as far as they do not end in the missing module lookup |
| `RelocEngine.Relocator.PlainRelocate` | library/src/main/cpp/linker/linker_relocate.cpp:483-491 | For every list JumpTable, Typical and General mode give the same memory and result; it ends at the first relocation that is not possible; after success the place of each relocation that no later one overlaps holds symbol value plus bias plus addend, bias plus addend, or the resolver's answer, as its type says |
| `RelocEngine.OneEffect` | library/src/main/cpp/linker/linker_relocate.cpp:95-471 | When one relocation succeeds, what is in memory then, and how it ends otherwise, in terms of its own fields and the symbol's |
| `RelocEngine.RunOf` | library/src/main/cpp/linker/linker_relocate.cpp:483-491 | A list is a run: each relocation was possible when its turn came and left its value; it ends early exactly at one that was not |
| `RelocEngine.ValueStands` | library/src/main/cpp/linker/linker_relocate.cpp:483-491 | A value that no later relocation writes over is there in the end |
| `RelocEngine.Sequential` | library/src/main/cpp/linker/linker_relocate.cpp:483-498 | A list in two parts is its parts one after the other, up to the first failure |
| `RelocEngine.OneFrame` | library/src/main/cpp/linker/linker_relocate.cpp:95-471 | A relocation changes no byte outside its own place, of the width of its type |
| `RelocEngine.Frame` | library/src/main/cpp/linker/linker_relocate.cpp:483-491 | A list of relocations changes no byte outside its places |
| `HookRelocs.FilterExports` | library/src/main/cpp/linker/linker_soinfo.cpp:2481-2490 | What is left are the exports not in the filter, with their addresses |
| `HookRelocs.Library.ProcessRelocation` | library/src/main/cpp/linker/linker_soinfo.cpp:554-626 | A jump slot in the jump-table pass, an absolute or data slot in the other, of a non-local symbol the hook library exports, gets address plus addend; anything else changes nothing |
| `HookRelocs.Library.PlainRelocate` | library/src/main/cpp/linker/linker_soinfo.cpp:628-634 | The writes of a list, in order; results are ignored |
| `HookRelocs.Library.AgainProcessRelocation` | library/src/main/cpp/linker/linker_soinfo.cpp:2492-2521 | Nothing when the pages cannot be unlocked; otherwise every jump slot of the second list and every absolute or data slot of the first that refers to an export, and that no later such slot overlaps, holds the export's address plus the addend, and no byte outside such slots changes |
| `HookRelocs.WritesExactly` | library/src/main/cpp/linker/linker_soinfo.cpp:554-634 | A write is made if and only if a relocation of the list is non-local, not thread-local, exported by the hook library, and of the pass's type |
| `HookRelocs.WritesByField` | library/src/main/cpp/linker/linker_soinfo.cpp:554-634 | A write is made if and only if a relocation of the list is of the pass's type, refers to a non-local symbol, and the hook library exports that name; it goes to bias plus offset and writes address plus addend |
| `HookRelocs.Uncovered` | library/src/main/cpp/linker/linker_soinfo.cpp:554-634 | Bytes outside the redirected slots stay |
| `HookRelocs.LastCovering` | library/src/main/cpp/linker/linker_soinfo.cpp:628-634 | A byte ends up as the last write that covers it leaves it |
| `HookRelocs.LastWins` | library/src/main/cpp/linker/linker_soinfo.cpp:628-634 | A slot that no later one overlaps holds its own value afterwards, whatever was written before it |
| `HookRelocs.KeepsExactly` | library/src/main/cpp/linker/linker_soinfo.cpp:628-634 | A slot keeps its value, whatever values are written to the slots, if and only if no later slot overlaps it |
| `HookRelocs.HalfAWordApart` | library/src/main/cpp/linker/linker_soinfo.cpp:628-634 | Two slots half a word apart, of which the first does not keep its value |
| `HookRelocs.SlotAfterPass` | library/src/main/cpp/linker/linker_soinfo.cpp:628-634 | A redirected relocation's slot holds address plus addend when the later redirected ones of its pass, and what follows the pass, do not overlap it |
| `HookRelocs.Idempotent` | library/src/main/cpp/linker/linker_soinfo.cpp:2492-2521 | Running it again changes nothing, overlapping slots included |
| `HookRelocs.Redirection` | library/src/main/cpp/linker/linker_soinfo.cpp:2492-2521 | Both passes together: each redirected slot that no later redirected one overlaps, in its own pass or the next, holds the hook library's address plus the addend; what no redirected slot covers is unchanged; again changes nothing |
| `HookRelocs.AllAreHooked` | library/src/main/cpp/linker/linker_soinfo.cpp:2492-2521 | The same field by field: jump slots of one list, absolute and data slots of the other |
| `ElfHash.CalculateElfHash` | library/src/main/cpp/linker/linker_util.cpp:293-304 | The loop, with its two exclusive ors on 32-bit words, computes the SysV hash of the name, which fits in 28 bits |
| `ElfHash.TwoXors` | library/src/main/cpp/linker/linker_util.cpp:297-301 | The two exclusive ors clear the top four bits and fold them into bits 4 to 7 |
| `ElfHash.ShortHash` | library/src/main/cpp/linker/linker_util.cpp:293-304 | As long as 28 bits hold the name's bytes as digits of weight 16, that number is the hash |
| `SymbolLookup.FindVerdefVersionIndex` | library/src/main/cpp/linker/linker_soinfo.cpp:434-451 | The index of the first version definition of that hash and name, the global one if there is none, and no need without a version |
| `SymbolLookup.CompareName` | library/src/main/cpp/linker/linker_soinfo.cpp:2747-2748 | Comparing length plus one bytes decides whether the table's string is the name |
| `SymbolLookup.BucketWalkable` | library/src/main/cpp/linker/linker_soinfo.cpp:2387-2395 | In a well-formed table the walk passes every symbol of the bucket and stops at the end bit |
| `SymbolLookup.ChainStart` | library/src/main/cpp/linker/linker_soinfo.cpp:2371-2383 | The Bloom filter and the bucket reject a hash only if no hashed symbol has it |
| `SymbolLookup.WalkChain` | library/src/main/cpp/linker/linker_soinfo.cpp:2387-2396 | The chain walk finds the lowest matching index, and nothing only if there is none |
| `SymbolLookup.SearchTable` | library/src/main/cpp/linker/linker_soinfo.cpp:2380-2396 | Bucket and chain agree with a scan of the hashed symbols |
| `SymbolLookup.GnuLookup` | library/src/main/cpp/linker/linker_soinfo.cpp:2367-2400 | The lowest-index hashed symbol of that name and a matching version, or nothing if and only if a scan finds none; what the table leaves unhashed does not matter |
| `SymbolLookup.ElfLookup` | library/src/main/cpp/linker/linker_soinfo.cpp:2402-2416 | A global defined symbol of that name and version, or nothing if and only if none exists |
| `SymbolLookup.WalkSysv` | library/src/main/cpp/linker/linker_soinfo.cpp:2402-2416 | The bucket's linked chain reaches every symbol of the name, and ends |
| `SymbolLookup.GnuHashLookupSymbol` | library/src/main/cpp/linker/elf_reader.cpp:516-548 | The lowest-index hashed symbol of the name, or nothing if and only if a scan finds none |
| `SymbolLookup.ElfHashLookupSymbol` | library/src/main/cpp/linker/elf_reader.cpp:550-566 | A symbol of the name, or nothing if and only if none exists |
| `SymbolLookup.SearchChain` | library/src/main/cpp/linker/linker_soinfo.cpp:2738-2755 | Reading the needed version only at the first hash hit makes no difference |
| `SymbolLookup.SearchGnu` | library/src/main/cpp/linker/linker_soinfo.cpp:2718-2755 | One library's GNU table agrees with a scan for a matching global, defined symbol |
| `SymbolLookup.DoLookupImpl` | library/src/main/cpp/linker/linker_soinfo.cpp:2683-2757 | The first library in list order with a symbol of that name, bound globally or weakly, defined, and of the right version word; nothing if and only if none has one; on the general and on the fast path |
| `SymbolLookup.SysvCountZero` | library/src/main/cpp/linker/linker_soinfo.cpp:486-520 | The count is zero exactly when no library needs a SysV lookup |
| `SymbolLookup.SymbolLookupList.Sole` | library/src/main/cpp/linker/linker_soinfo.cpp:486-491 | A list of one library |
| `SymbolLookup.SymbolLookupList.FromGroups` | library/src/main/cpp/linker/linker_soinfo.cpp:493-512 | Global group, then local group |
| `SymbolLookup.SymbolLookupList.SetDtSymbolicLib` | library/src/main/cpp/linker/linker_soinfo.cpp:514-520 | The library is searched first, whatever was in front before |
| `SymbolLookup.SymbolLookupList.SlowPathExact` | library/src/main/cpp/linker/linker_soinfo.h:79-110 | After construction and any such calls the slow path is chosen if and only if lookups are traced or a searched library has no GNU table |
| `SymbolLookup.SymbolLookupList.Range` | library/src/main/cpp/linker/linker_soinfo.h:79-110 | What begin and end delimit is what is searched |
| `SymbolLookup.SymbolLookupList.DoLookup` | library/src/main/cpp/linker/linker_soinfo.cpp:2759-2764 | The same, whichever path is taken: the result is that of a naive scan of the list, and the first offer field by field |
| `SymbolLookup.MatchesIsOffers` | library/src/main/cpp/linker/linker_soinfo.cpp:2747-2750 | What the scan accepts is a global or weak, defined symbol whose string is the name and whose version fits |
| `SymbolLookup.VersionIs` | library/src/main/cpp/linker/linker_soinfo.cpp:375-380 | Without a version the hidden bit is clear; with one the low 15 bits are the index of its first definition that is not the file's own, or 1 without any; an index of 0 counts as none |
| `SymbolLookup.IndexIs` | library/src/main/cpp/linker/linker_soinfo.cpp:434-451 | The index found is that of the first such definition, field by field |
| `LinkedLists.LinkedList.PushFront` | library/src/main/cpp/linker/linked_list.h:67-75 | The element comes in front of the others; tail and links stay right |
| `LinkedLists.LinkedList.Find` | library/src/main/cpp/linker/linked_list.h:192-200 | The first entry with the value, null if and only if there is none |
| `LinkedLists.LinkedList.Contains` | library/src/main/cpp/linker/linked_list.h:210-217 | Membership |
| `LinkedLists.LinkedList.PushBack` | library/src/main/cpp/linker/linked_list.h:77-89 | Appends unless the element is there; a list free of duplicates stays so |
| `LinkedLists.LinkedList.PopFront` | library/src/main/cpp/linker/linked_list.h:91-104 | The first element leaves, its entry is freed once, and the tail is null when the list is empty |
| `LinkedLists.LinkedList.Clear` | library/src/main/cpp/linker/linked_list.h:121-128 | Every entry is freed exactly once, in order |
| `LinkedLists.LinkedList.Unlink` | library/src/main/cpp/linker/linked_list.h:153-165 | One entry leaves wherever it is; the others stay linked, the tail stays right |
| `LinkedLists.LinkedList.RemoveIf` | library/src/main/cpp/linker/linked_list.h:150-170 | An order-preserving filter; exactly the entries dropped are freed, once each, in order |
| `LinkedLists.LinkedList.SiftOne` | library/src/main/cpp/linker/linked_list.h:151-170 | One turn of the loop: the entries met so far are filtered, the others are as they were |
| `LinkedLists.LinkedList.SiftOut` | library/src/main/cpp/linker/linked_list.h:153-165 | An entry to be dropped leaves and is freed, and the entry before it stays the last one kept |
| `LinkedLists.LinkedList.SiftPast` | library/src/main/cpp/linker/linked_list.h:166-169 | An entry to be kept becomes the last one kept |
| `LinkedLists.LinkedList.Remove` | library/src/main/cpp/linker/linked_list.h:172-176 | All entries of that element leave |
| `LinkedLists.LinkedList.Visit` | library/src/main/cpp/linker/linked_list.h:140-148 | Calls in order up to the first refusal; true if and only if nothing was refused |
| `LinkedLists.LinkedList.Size` | library/src/main/cpp/linker/linked_list.h:225-231 | The length of the contents |
| `LinkedLists.PickedElements` | library/src/main/cpp/linker/linked_list.h:150-170 | Filtering entries filters elements |
| `LinkedLists.FilterHas` | library/src/main/cpp/linker/linked_list.h:150-170 | A filter keeps the elements with the wanted answer and no others |
| `DependencyWalk.WalkDependenciesTree` | library/src/main/cpp/linker/linker_globals.cpp:390-415 | On every finite graph, cycles included, the walk ends; the action is called at most once per library, on the root first, nearest first, only on what is reachable through libraries it continued at, and on all of that unless it stops the walk |
| `DependencyWalk.WalkLists` | library/src/main/cpp/linker/linker_globals.cpp:390-415 | The two deduplicating lists carry out the walk on sequences |
| `DependencyWalk.Settle` | library/src/main/cpp/linker/linker_globals.cpp:407-412 | A library becomes visited and its children are queued behind what waits |
| `DependencyWalk.Enqueue` | library/src/main/cpp/linker/linker_globals.cpp:409-411 | Children are pushed unless they wait already |
| `DependencyWalk.WalkIsBreadthFirst` | library/src/main/cpp/linker/linker_globals.cpp:390-415 | Distances never decrease along the calls, and nothing reachable is left out |
| `DependencyWalk.WalkVisitsOnce` | library/src/main/cpp/linker/linker_globals.cpp:390-415 | No library is acted on twice, and the first refusal to go on is the last call |
| `DependencyWalk.NearIsVisited` | library/src/main/cpp/linker/linker_globals.cpp:396-413 | Whatever is nearer than all that waits has been visited, at its own distance |
| `DependencyWalk.VisitFirst` | library/src/main/cpp/linker/linker_globals.cpp:401-412 | One round keeps the queue within two neighbouring distances, exact, and complete |
| `DependencyWalk.DropFirst` | library/src/main/cpp/linker/linker_globals.cpp:397-399 | A library met again can be dropped |
| `DependencyWalk.GetSoinfoLocalGroup` | library/src/main/cpp/linker/linker_globals.cpp:438-457 | From API 24 on the local group is exactly what paths along accessible libraries lead to, the root included, before that what any path leads to; without duplicates, root first, along shorter paths first; empty when the root is not accessible |
| `DependencyWalk.GroupByPaths` | library/src/main/cpp/linker/linker_globals.cpp:442-455 | What is kept is what such paths lead to, shortest first |
| `DependencyWalk.LocalGroup` | library/src/main/cpp/linker/linker_globals.cpp:442-455 | Collecting what the walk accepts gives that set, and nothing when the root itself is not accessible |
| `BlockAllocator.HasRoom` | library/src/main/cpp/linker/linker_block_allocator.cpp:49-55 | A page has room for a block exactly when the size asked for is at most a page less its header |
| `BlockAllocator.Sizes` | library/src/main/cpp/linker/linker_block_allocator.cpp:12-52 | Pages of 4096, 409600 and 393216 bytes by version, blocks of the least multiple of 16 that holds what is asked, and as many as fit behind 16 bytes |
| `BlockAllocator.LinkerBlockAllocator.constructor` | library/src/main/cpp/linker/linker_block_allocator.cpp:49-55 | An allocator in order, if and only if a page has room for a block |
| `BlockAllocator.LinkerBlockAllocator.Alloc` | library/src/main/cpp/linker/linker_block_allocator.cpp:57-78 | A zeroed block that was not live, of some page; no other live block is written to, and free and live blocks still share out all pages |
| `BlockAllocator.LinkerBlockAllocator.TakeBlock` | library/src/main/cpp/linker/linker_block_allocator.cpp:63-77 | Splitting a free run keeps the runs and the live blocks apart |
| `BlockAllocator.LinkerBlockAllocator.CreateNewPage` | library/src/main/cpp/linker/linker_block_allocator.cpp:116-129 | All blocks of the page become one free run; live blocks keep their contents |
| `BlockAllocator.LinkerBlockAllocator.AllocWithoutRoom` | library/src/main/cpp/linker/linker_block_allocator.cpp:57-78 | When the size is too large a block is handed out all the same, and runs past its page |
| `BlockAllocator.LinkerBlockAllocator.FindPage` | library/src/main/cpp/linker/linker_block_allocator.cpp:131-144 | The page that holds an address, if there is one |
| `BlockAllocator.LinkerBlockAllocator.Free` | library/src/main/cpp/linker/linker_block_allocator.cpp:80-106 | Gives back exactly the addresses that pass its tests; the allocator is in order afterwards, or could be with any other runs and live blocks, if and only if what was given back was live; then the others keep their contents; whatever does not pass changes nothing |
| `BlockAllocator.LinkerBlockAllocator.Classify` | library/src/main/cpp/linker/linker_block_allocator.cpp:80-92 | Null, no page, no block, or passing; every live block passes |
| `BlockAllocator.LinkerBlockAllocator.GiveBack` | library/src/main/cpp/linker/linker_block_allocator.cpp:94-105 | The block becomes free and the count goes down; the allocator is in order if and only if it was live, and otherwise no runs and no live blocks fit the memory |
| `BlockAllocator.TwiceFree` | library/src/main/cpp/linker/linker_block_allocator.cpp:94-102 | A block given back though it is not live, free already or no block at all, leaves a memory that no free runs and no set of live blocks fit |
| `BlockAllocator.MeetsOrSame` | library/src/main/cpp/linker/linker_block_allocator.cpp:94-102 | A free list that starts at the old head either comes to the block again or is the old one |
| `BlockAllocator.LinkerBlockAllocator.PutBlock` | library/src/main/cpp/linker/linker_block_allocator.cpp:94-102 | The block becomes a run of its own; that is in order if and only if it was live, whatever runs and live blocks one takes |
| `BlockAllocator.LinkerBlockAllocator.Purge` | library/src/main/cpp/linker/linker_block_allocator.cpp:146-158 | From API 29 on pages are unmapped only when no block is live; before that, all of them always |
| `BlockAllocator.LinkerBlockAllocator.UnmapAll` | library/src/main/cpp/linker/linker_block_allocator.cpp:150-155 | Every page of the list is unmapped, once, in order |
| `BlockAllocator.LinkerBlockAllocator.Store` | library/src/main/cpp/linker/linker_block_allocator.h:39-47 | What clients store in their blocks does not disturb the allocator |
| `BlockAllocator.BlocksApart` | library/src/main/cpp/linker/linker_block_allocator.cpp:57-129 | Two different blocks never overlap |
| `BlockAllocator.PageOf` | library/src/main/cpp/linker/linker_block_allocator.cpp:116-129 | Every block lies in a page, behind its header, a whole number of blocks from it |
| `BlockAllocator.LinkerBlockAllocator.InSomePage` | library/src/main/cpp/linker/linker_block_allocator.cpp:57-78 | A block handed out lies in a page, a whole number of blocks behind its first 16 bytes |
| `BlockAllocator.Conservation` | library/src/main/cpp/linker/linker_block_allocator.cpp:57-129 | Live and free blocks together are pages times blocks per page |
| `BlockAllocator.StaysSane` | library/src/main/cpp/linker/linker_block_allocator.cpp:63-75 | Runs, live blocks, page list and free list stay as they should when a block is handed out |
| `BlockAllocator.StaysSaneReturned` | library/src/main/cpp/linker/linker_block_allocator.cpp:94-102 | The same when a block comes back |
| `Pages.DownIsRemainder` | library/src/main/cpp/include/fakelinker/macros.h:85 | Rounding down takes the remainder off |
| `Pages.UpLeast` | library/src/main/cpp/include/fakelinker/macros.h:87 | Rounding up gives the least multiple that is not below |
| `Pages.DownGreatest` | library/src/main/cpp/include/fakelinker/macros.h:62 | PAGE_START is the greatest page address not above |
| `ProgramHeaders.GetLoadSize` | library/src/main/cpp/linker/elf_reader.cpp:1395-1431 | The range from the lowest loadable page to the highest, zero without loadable segments |
| `ProgramHeaders.Spans` | library/src/main/cpp/linker/elf_reader.cpp:1395-1431 | Every loadable segment lies in that range, in whole pages |
| `ProgramHeaders.RangeIsTight` | library/src/main/cpp/linker/elf_reader.cpp:1395-1431 | The range starts on the page of a segment and ends on that of one, and is empty without any; its size is the difference, and a page more in compatibility mode |
| `ProgramHeaders.LoadSizeAligned` | library/src/main/cpp/linker/elf_reader.cpp:1421-1430 | The size is whole pages even when sums wrap |
| `ProgramHeaders.GetMaximumAlignment` | library/src/main/cpp/linker/elf_reader.cpp:1436-1457 | The greatest power of two a loadable segment asks for, the page at least |
| `ProgramHeaders.GetMinimumAlignment` | library/src/main/cpp/linker/elf_reader.cpp:1462-1481 | The least power of two above one a loadable segment asks for, the page at most |
| `ProgramHeaders.LeastAlignmentIs` | library/src/main/cpp/linker/elf_reader.cpp:1462-1481 | It is the page exactly when no segment asks for less |
| `ProgramHeaders.LessExactly` | library/src/main/cpp/linker/elf_reader.cpp:1462-1481 | It is below the page exactly when a loadable segment asks for a power of two in between |
| `ProgramHeaders.PowersExactly` | library/src/main/cpp/linker/elf_reader.cpp:1469-1472 | The test for a power of two is one |
| `AddressSpace.Process.ReserveWithAlignmentPadding` | library/src/main/cpp/linker/elf_reader.cpp:1485-1558 | For every random draw: what stays mapped is exactly region and gap; the region is aligned, lies before the gap, and rounding its ends to the mapping alignment stays inside the original mapping; the gap is there exactly when the mapping crosses 2 MiB, with the units drawn; a failure leaves nothing mapped |
| `AddressSpace.Process.Place` | library/src/main/cpp/linker/elf_reader.cpp:1532-1557 | Cutting region and gap out of a mapping |
| `AddressSpace.Process.PlaceWithGap` | library/src/main/cpp/linker/elf_reader.cpp:1522-1529 | The second mapping, with room for the gap |
| `AddressSpace.CrossesExactly` | library/src/main/cpp/linker/elf_reader.cpp:1513-1515 | A gap is made exactly when the first and the last byte between multiples of the alignment lie in different pages of 2 MiB |
| `AddressSpace.Offset` | library/src/main/cpp/linker/elf_reader.cpp:1545-1546 | The random start leaves room for the region and keeps its alignment |
| `AddressSpace.EveryStart` | library/src/main/cpp/linker/elf_reader.cpp:1545-1546 | Every aligned start that leaves the region room can be drawn |
| `AddressSpace.RoomForRegion` | library/src/main/cpp/linker/elf_reader.cpp:1507-1541 | With room asked for, the region fits before the gap wherever the kernel puts the mapping |
| `AddressSpace.RoomExactly` | library/src/main/cpp/linker/elf_reader.cpp:1524-1541 | It fits everywhere if and only if the rounded region and the gap fit what is asked |
| `AddressSpace.WholeUnitsAreRoomy` | library/src/main/cpp/linker/elf_reader.cpp:1523-1525 | For alignments up to 2 MiB that is always so |
| `AddressSpace.NoRoomForOnePage` | library/src/main/cpp/linker/elf_reader.cpp:1522-1541 | For an alignment of 4 MiB and one page it is not so |
| `AddressSpace.Process.ReserveAddressSpace` | library/src/main/cpp/linker/elf_reader.cpp:1563-1619 | A free place of the load size and a bias that moves the table there, or the start of the caller's space, which shrinks by it; the alignments it asks for always leave room |
| `AddressSpace.Process.StartAlignment` | library/src/main/cpp/linker/elf_reader.cpp:1586-1593 | A start on 2 MiB when huge pages are to be had and 2 MiB is the greatest power of two asked for, on a page otherwise |
| `AddressSpace.Process.AsLoader` | library/src/main/cpp/linker/elf_reader.cpp:1586-1594 | With 256 KiB and a page or 2 MiB the reservation never comes out wrong |
| `Compat16K.HasAtMostOneRelro` | library/src/main/cpp/linker/linker_phdr_16kib_compat.cpp:29-49 | True if and only if there are not two; then the one there is |
| `Compat16K.IsEligible` | library/src/main/cpp/linker/linker_phdr_16kib_compat.cpp:89-143 | Accepted if and only if RW entries are adjacent, and RELRO is single and starts the first of them; otherwise refused, or a null dereference when there is neither RW nor RELRO |
| `Compat16K.AcceptedExactly` | library/src/main/cpp/linker/linker_phdr_16kib_compat.cpp:29-143 | Accepted if and only if there is at most one RELRO, the readable and writable loadable segments are adjacent and exist, and RELRO starts where the first of them does |
| `Compat16K.BoundaryLies` | library/src/main/cpp/linker/linker_phdr_16kib_compat.cpp:122-141 | The boundary is the 4 KiB page of the first RW address, or the first page that does not lie below RELRO's end |
| `Compat16K.NullForCodeOnly` | library/src/main/cpp/linker/linker_phdr_16kib_compat.cpp:122-125 | A table of one executable segment, for which a null pointer is dereferenced |
| `Compat16K.ShiftedToPage` | library/src/main/cpp/linker/linker_phdr_16kib_compat.cpp:148-152 | Moved by the offset an address lies on the next page boundary, less than a page away |
| `Compat16K.BoundaryPlaced` | library/src/main/cpp/linker/linker_phdr_16kib_compat.cpp:164-168 | The shifted bias puts the boundary on a page, whole pages into the reservation |
| `Compat16K.PartitionExactly` | library/src/main/cpp/linker/linker_phdr_16kib_compat.cpp:167-175 | For every accepted table RX and RW parts share out the reservation if and only if the boundary's page is neither below the lowest segment's page nor more than a page past the highest segment's end |
| `Compat16K.SharesOutBySize` | library/src/main/cpp/linker/linker_phdr_16kib_compat.cpp:164-175 | For any table, wrap-around included: if and only if the boundary's page is not past the load size |
| `Compat16K.BoundaryRoundsUp` | library/src/main/cpp/linker/linker_phdr_16kib_compat.cpp:148-152 | The boundary's page is the boundary rounded up |
| `Compat16K.BoundaryInside` | library/src/main/cpp/linker/linker_phdr_16kib_compat.cpp:112-141 | When RELRO ends in its segment, the boundary and its page lie in the range the segments span |
| `Compat16K.PartsShareOut` | library/src/main/cpp/linker/linker_phdr_16kib_compat.cpp:164-175 | When RELRO ends in its segment the two parts share out the reservation exactly, and the RW part is a page at least |
| `Compat16K.OversizedRelro` | library/src/main/cpp/linker/linker_phdr_16kib_compat.cpp:128-141 | A table that is accepted and whose parts do not share out the reservation |
| `Compat16K.CodeAfterData` | library/src/main/cpp/linker/linker_phdr_16kib_compat.cpp:51-82 | A table that is accepted though code follows the data |
| `Compat16K.RxBeforeBoundaryExactly` | library/src/main/cpp/linker/linker_phdr_16kib_compat.cpp:51-143 | In every accepted table whose RELRO ends in its segment, what is not RW ends before the boundary if and only if it stands before the RW segments |
| `Compat16K.SideOfBoundary` | library/src/main/cpp/linker/linker_phdr_16kib_compat.cpp:51-143 | Each such segment lies before the boundary or behind it, with all its pages, as it stands before or behind the RW segments |
| `SegmentLoader.ElfReader.Setup16KiBAppCompat` | library/src/main/cpp/linker/linker_phdr_16kib_compat.cpp:154-182 | Both assertions hold for every table; the boundary comes to lie on a page; the RX part starts the reservation |
| `SegmentLoader.ShiftedSegmentsFit` | library/src/main/cpp/linker/linker_phdr_16kib_compat.cpp:164-165 | Every shifted segment fits the reservation, which is a page larger |
| `SegmentLoader.ReservationPlaces` | library/src/main/cpp/linker/elf_reader.cpp:1574-1611 | What ReserveAddressSpace gives is a place for the segments, in both modes |
| `SegmentLoader.ElfReader.ExtendLoadSegmentVma` | library/src/main/cpp/linker/elf_reader.cpp:1696-1744 | Both sizes grow by the extension, or not at all |
| `SegmentLoader.ExtensionReaches` | library/src/main/cpp/linker/elf_reader.cpp:1718-1743 | An extended segment has no bss and reaches exactly to the next segment's page |
| `SegmentLoader.StretchedExactly` | library/src/main/cpp/linker/elf_reader.cpp:1696-1744 | A segment is extended if and only if padding is on, its alignment is above a page and at most 64 KiB, it has no bss, and a loadable segment follows that starts on a later page |
| `SegmentLoader.ElfReader.MapSegment` | library/src/main/cpp/linker/elf_reader.cpp:1746-1770 | Whole pages of the file over the segment's pages |
| `SegmentLoader.ElfReader.CompatMapSegment` | library/src/main/cpp/linker/linker_phdr_16kib_compat.cpp:184-209 | The file's bytes, as far as it has them, read into memory |
| `SegmentLoader.ElfReader.ZeroFillSegment` | library/src/main/cpp/linker/elf_reader.cpp:1772-1795 | The rest of the last page of contents is cleared if the segment is writable, unless that page is not there and the store faults |
| `SegmentLoader.ZeroFilledAt` | library/src/main/cpp/linker/elf_reader.cpp:1772-1795 | That changes the bytes from the end of the contents to the end of the page and no others |
| `SegmentLoader.ElfReader.DropPaddingPages` | library/src/main/cpp/linker/elf_reader.cpp:1797-1828 | Padding comes back from the file |
| `SegmentLoader.Checks` | library/src/main/cpp/linker/elf_reader.cpp:1807-1809 | The assertion about padding never fails on well-formed tables |
| `SegmentLoader.DroppedAt` | library/src/main/cpp/linker/elf_reader.cpp:1797-1828 | What comes back is what the mapping had there |
| `SegmentLoader.ElfReader.MapBssSection` | library/src/main/cpp/linker/elf_reader.cpp:1830-1859 | Zero pages from the last page of contents to the segment's end |
| `SegmentLoader.ElfReader.LoadSegment` | library/src/main/cpp/linker/elf_reader.cpp:1881-1955 | One segment, wrap-around, every error case and the fault of clearing included |
| `SegmentLoader.ElfReader.LoadSegments` | library/src/main/cpp/linker/elf_reader.cpp:1861-1957 | Outside compatibility mode, on pages of 16 KiB and more, refused for its alignment if and only if a loadable segment asks for a power of two above 1 and below the page, and never otherwise; sets up compatibility mode; then loads segment by segment until one fails |
| `SegmentLoader.ElfReader.LoadAll` | library/src/main/cpp/linker/elf_reader.cpp:1883-1956 | The loop loads segment by segment until one fails |
| `SegmentLoader.Geometry` | library/src/main/cpp/linker/elf_reader.cpp:1891-1908 | On a well-formed table no sum wraps and the addresses are the ones meant |
| `SegmentLoader.Ranges` | library/src/main/cpp/linker/elf_reader.cpp:1891-1908 | The page ranges of the segments, extensions included, are disjoint and in the load size |
| `SegmentLoader.StepAt` | library/src/main/cpp/linker/elf_reader.cpp:1881-1955 | A segment's mappings stay in its range, also when they fail; when they succeed, this is what is there |
| `SegmentLoader.SegmentStays` | library/src/main/cpp/linker/elf_reader.cpp:1861-1957 | No other mapping damages a segment that is loaded |
| `SegmentLoader.InsideReservation` | library/src/main/cpp/linker/elf_reader.cpp:1861-1957 | Nothing outside the reservation changes, whether loading succeeds or not |
| `SegmentLoader.LoadedImage` | library/src/main/cpp/linker/elf_reader.cpp:1861-1957 | After success byte k of each segment that ends in the file is the file's byte for k < p_filesz and zero up to p_memsz; in a segment that is not writable, bss on the last page of contents is exactly what the file goes on with |
| `SegmentLoader.ContentsExactly` | library/src/main/cpp/linker/elf_reader.cpp:1861-1957 | A loaded segment has all its contents in memory if and only if the archive goes on to their end |
| `SegmentLoader.ImageExactly` | library/src/main/cpp/linker/elf_reader.cpp:1861-1957 | Every byte of a loaded segment, bss included, is the one described if and only if its contents end inside the archive and the file goes on with zeros where bss is not cleared |
| `SegmentLoader.ContentByte` | library/src/main/cpp/linker/elf_reader.cpp:1861-1957 | Every byte of the contents, outside compatibility mode also past the archive's end: zeros up to the end of its last page, then nothing |
| `SegmentLoader.PastTheArchive` | library/src/main/cpp/linker/elf_reader.cpp:1919-1926 | An archive of two pages and a read-only segment past its end that is loaded all the same, with nothing behind its first page |
| `SegmentLoader.FillPastTheArchive` | library/src/main/cpp/linker/elf_reader.cpp:1791-1793 | The same segment, writable: clearing the rest of its last page faults |
| `SegmentLoader.BssOfOnes` | library/src/main/cpp/linker/elf_reader.cpp:1772-1795 | A read-only segment whose bss holds ones after loading |
| `SegmentLoader.StepSucceeds` | library/src/main/cpp/linker/elf_reader.cpp:1910-1955 | One segment is loaded if and only if it ends in the file, is not both writable and executable from API 26 on, the page to be cleared is backed by the archive, and the kernel maps what it needs |
| `SegmentLoader.StepFails` | library/src/main/cpp/linker/elf_reader.cpp:1910-1955 | Which error a segment fails with, for each thing that stands against it, in order |
| `SegmentLoader.FaultsExactly` | library/src/main/cpp/linker/elf_reader.cpp:1772-1795 | Clearing faults if and only if the segment is writable, does not end on a page, and ends past the archive's last page |
| `SegmentLoader.IntactNeverFaults` | library/src/main/cpp/linker/elf_reader.cpp:1881-1955 | A segment that ends inside the archive never faults |
| `SegmentLoader.LoadsExactly` | library/src/main/cpp/linker/elf_reader.cpp:1861-1957 | A well-formed table is loaded if and only if that holds of every segment |
| `SegmentLoader.BssNeeded` | library/src/main/cpp/linker/elf_reader.cpp:1837-1841 | Zero pages are mapped exactly for segments that go on past the last page of their contents |
| `SegmentLoader.Backed` | library/src/main/cpp/linker/elf_reader.cpp:1772-1795 | The last page of contents that end no further than the archive's last page is backed by the archive |
| `RelroSharing.Process.MapGnuRelro` | library/src/main/cpp/linker/elf_reader.cpp:2372-2443 | Memory contents never change; in every segment processed exactly the pages equal to the file's become the file's; it stops at the first entry the file is too short for; with any offset past the end of the file the check wraps, and the comparison leaves the file's mapping exactly in the case stated |
| `RelroSharing.SharedExactly` | library/src/main/cpp/linker/elf_reader.cpp:2392-2436 | An address can be shared if and only if it lies in a page of a RELRO entry that equals the file's page for it, the entries' pages following each other in the file |
| `RelroSharing.ShortExactly` | library/src/main/cpp/linker/elf_reader.cpp:2405-2410 | The file is too short for an entry exactly when it ends before the entry's pages do |
| `RelroSharing.OffsetPastFile` | library/src/main/cpp/linker/elf_reader.cpp:2405-2414 | One page of RELRO, a file of one page and an offset of two: the comparison faults |
| `RelroSharing.Process.ShareEntry` | library/src/main/cpp/linker/elf_reader.cpp:2392-2439 | One entry adds its equal pages and no others |
| `RelroSharing.Process.ShareSegment` | library/src/main/cpp/linker/elf_reader.cpp:2412-2436 | The run-finding loops end, and share exactly the equal pages |
| `RelroSharing.Process.Scan` | library/src/main/cpp/linker/elf_reader.cpp:2413-2423 | A run ends at the first page that differs in kind, or where the file does |
| `RelroSharing.Process.MapOver` | library/src/main/cpp/linker/elf_reader.cpp:2427-2428 | What a file mapping puts in memory |
| `RelroSharing.EqualPages` | library/src/main/cpp/linker/elf_reader.cpp:2413-2433 | Mapping the file over pages equal to it changes no byte |

## Left out

- GnuHash.CalculateGnuHashNeon: memory is a whole number of 8-byte chunks, because the code reads whole aligned chunks.
- DependencyWalk.WalkDependenciesTree: what the action answers depends on the library alone, as for both actions the source passes; the group is collected from the calls after the walk instead of during it.
- SegmentLoader.LoadedImage: is about well-formed tables; for others `LoadSegments` is tied, with wrap-around, to a function of the table and nothing more is said. In compatibility mode the memory that is read into is taken to be mapped.
- SegmentLoader.ElfReader.DropPaddingPages: the kernel's choice to drop pages is a parameter, and a dropped page is read from the file at once instead of at the next access.
- AddressSpace.Process.ReserveWithAlignmentPadding: sizes asked of the kernel are unbounded, and a mapping never reaches into the upper half of the address space.
- BlockAllocator.LinkerBlockAllocator.Free: what later calls do with an allocator that is out of order.
- RelocEngine.Relocator.ProcessTls: a thread-local relocation that needs a loaded module ends in the abort of the source's lookup.
- HookRelocs.Library.ProcessRelocation: reading the old value of a slot, which only the log uses, would fault for an unmapped slot.
- RelroSharing.Process.MapGnuRelro: page protection, and the temporary mapping beyond what can be read through it.
- SymbolLookup.GnuLookup: Android before API 23, where every lookup goes through the SysV table; the remark in the source that it does not tell local from global symbols is kept.
- safe_add, page_offset and page_start as functions of their own: single expressions.
- LinkedListT and the wrapper around both lists: the same operations behind a header that is allocated on demand; nothing harder to show.
- VersionTracker and lookup_version_info: the version wanted for a symbol is an input of the lookup.
- Protection bits, huge-page advice, names of mappings, log and warning texts.
- The prefix and export-table scans, whose bounds rest on an unstated shape of the tables: exported symbols are an input.
- The sequence of passes in soinfo::relocate: its test of the packed pass returns failure on success, unlike its neighbours.
- The removal loop for preloaded libraries, which leaves its last entry twice.
- Namespace membership: accessibility is a predicate of the library.
- Layouts of linker structures per Android version, JNI hooking, property and maps parsing, the XZ decoder around the CRC.
- The 32-bit build: text relocations and addends in place.
