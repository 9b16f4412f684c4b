# Verified models of the boot loader's core

This project models the parts of the FreeBSD boot loader (`boot/`) whose correctness is
hard to see by reading: a crash-tolerant on-disk protocol, a recursive loader with
rollback, a block cache, double-cell arithmetic, a cached file reader, two image builders,
the Forth dictionary, the extended-partition walk and the command-line parser. Code that
works by changing state is modelled by classes and loops that are proved against pure
specifications; the promises of the code are theorems about those specifications.

Check everything with `dafny verify dfyconfig.toml`.

## Layout

| files | what they model |
|---|---|
| `CrcRegister`, `Crc32Table`, `Crc32` | the table-driven CRC-32 against the bit-serial one of section 8 of RFC 1952 |
| `GptFormat`, `GptSpec` | headers, entries and sectors (sections 5.3.2 and 5.3.3 of the UEFI Specification), and what each GPT operation does to memory and in which order it writes sectors |
| `GptGeometry`, `GptCopy` | where the two copies lie, and what each single write does to a copy |
| `GptProtocol` | the protocol as a state machine whose steps are gptread, gptfind, gptbootfailed, one sector write, return of gptfind, and crash; theorems over all runs |
| `GptSession` | the order in which one boot session is offered partitions |
| `GptWitness` | a drive and a run for each number of entries that is no multiple of four |
| `GptLoader` | the imperative code of `gpt.c`, proved equal to `GptSpec` |
| `ModuleLoader` | loading modules with their dependencies |
| `BlockCache` | the block cache and its devices |
| `Math64` | double-cell arithmetic over 32-bit cells |
| `UfsReader` | `fsread` with its three one-entry caches |
| `ElfImage`, `ElfObject`, `ElfSegments` | loading relocatable objects and program segments into memory |
| `WordSpec`, `Dictionary` | names, hash chains and definitions of the Forth dictionary |
| `Slices` | the walk over extended partitions |
| `CommandLine` | backslash elimination, word splitting and joining |
| `Arith`, `Options` | division, rounding and optional values |

## What the source leaves to its environment

- GPT: a sector write is atomic, writes reach the drive in order and fail only by a crash.
  The drive is laid out as `GptProtocol.LayoutOk` says: the copies are disjoint, 32 sectors
  are reserved for each table, `hdr_lba_alt` of the primary is the last LBA, `hdr_entsz` is
  128, and `hdr_size` is between 92 and 96 with nothing after the structure. The theorems
  over runs hold for every checksum function, so CRC collisions are included; only
  `TornUpdateRejected` and its kin speak of CRC-32 itself.
- Module loading: the path search, `linker.hints` and the file format handlers are a finite
  map from file names to images, with the handler that knows each, and search functions; a kernel has no dependencies,
  as `boot/common/load_elf.c:653` sees to.
- Block cache: requests are whole blocks with numbers from 0 on, and a failed device write
  leaves the device as it was. A unit number names one device. The clock behind the
  time-out moves by arbitrary steps, never back.
- `Math64`: cells have 32 bits and characters are signed. A divisor of 0 or of the most negative cell is excluded.
- `UfsReader`: no holes, no two blocks of one file in the same place, sizes below 2^32. A block
  is a whole number of fragments and of 4096-byte virtual blocks, and the inodes of a cylinder
  group fill whole virtual blocks.
- ELF: addresses do not wrap around and the load address is not 0. The alignment of a section
  that is placed, or is a symbol or string table, is not 0, as the source divides by it; other
  headers, such as the null section's, may have alignment 0.
- The flags of a GPT entry are bits 59, 58 and 57 of its attributes; `sys/gpt.h` is not part of
  this model.
- NDOSPART is 4, NEXTDOSPART 32 and DOSPTYP_EXT 5; `sys/diskmbr.h` is not part of this model.

## Results that are not what one might expect

Each has an exact theorem and an input.

- gptfind misses every partition with BOOTME alone if the last table entry is selected in
  the first run (`boot/common/gpt.c:113-162`): `GptSession.OfferSecondRun`,
  `GptWitness.SecondRunLost`.
- gptbootconv works on whole sectors of four entries (`boot/common/gpt.c:244`), so that
  BOOTONCE alone marks the booted partition and no other only for a multiple of four:
  `GptWitness.OnceOnlyExact`, `GptWitness.FifthEntryLeft`.
- The insertion counter is stored in an int (`boot/common/bcache.c:57`), so that, as the
  source remarks, the cache no longer retires the oldest block after 2^31 insertions: from
  then on each block retires the one before. `BlockCache.AllGo` has the exact bound, and
  `BlockCache.BCache.Strategy` what it means for a read.
- A write that bypasses the cache leaves stale blocks (`boot/common/bcache.c:241-244`):
  `BlockCache.BypassedWrite`, `BlockCache.BypassedWriteStale`.
- Of sections with contents that share a file offset only the first is read
  (`boot/common/load_elf_obj.c:311-314`): `ElfObject.ContentsExact`,
  `ElfObject.SharedOffsetUnread`.
- Segments out of address order may be overwritten by a first-page copy
  (`boot/common/load_elf.c:334-339`): `ElfSegments.SegmentHolds`,
  `ElfSegments.OutOfOrderSpills`.
- A segment at address 0 is forgotten by firstaddr (`boot/common/load_elf.c:366-367`):
  `ElfSegments.FirstIsLowest`, `ElfSegments.FirstForgotten`.
- Lookups of names over 31 characters depend on the number of hash buckets
  (`boot/ficl/dict.c:797-825`): `WordSpec.LookupExact`, `WordSpec.LongNameExample`.
- The length of a name is stored in 8 bits (`boot/ficl/dict.c:239`), so a name of more than
  255 characters can pass for a short one: `WordSpec.HeaderProper`,
  `WordSpec.OverlongNameExample`.
- FORGET leaves later words of other wordlists, and the word itself if it is in one, linked in
  memory it has given back (`boot/ficl/tools.c:715-727`): `Dictionary.Dict.Forget`,
  `Dictionary.ForgottenBelow`, `Dictionary.ForgottenElsewhere`.
- The source has it that its test for digits also rejects the characters between the digits
  and the letters (`boot/ficl/words.c:3074-3077`). It does not reject the six between the
  two cases of letters, which pass for the digits 4 to 9: `Math64.DigitChars`,
  `Math64.OnlyDigitsRead`.
- Twenty words on a line are accepted although the vector then has no place for its
  terminator (`boot/common/interp_parse.c:161-165`): `CommandLine.OverrunExact`,
  `CommandLine.TwentyWords`.

## Model

| member | source | states |
|---|---|---|
| Crc32.Compute | boot/common/crc32.c:98-108 | the table-driven loop returns the bit-serial reflected CRC of every byte sequence |
| Crc32Table.TableShifts | boot/common/crc32.c:52-96 | each of the 256 table words is its index shifted through the CRC register eight times |
| Crc32.LookupIsFeedByte | boot/common/crc32.c:104-106 | one table step equals feeding the eight bits of a byte one at a time, for every register and byte |
| Crc32.OneByteChangesCrc | boot/common/crc32.c:98-108 | sequences of equal length that differ in exactly one byte have different CRCs |
| Crc32.CheckValue | boot/common/crc32.c:98-108 | the CRC of the nine digits 1 to 9 is 0xcbf43926, and that of no bytes is 0 |
| GptFormat.DecodeEncodeEnt | boot/common/gpt.c:300-302 | decoding an encoded partition entry gives it back, each of its three flags and all other bytes |
| GptFormat.AttributeBits | boot/common/gpt.c:249-254 | in the little-endian 64-bit attribute field of an encoded entry BOOTME is bit 59, BOOTONCE bit 58 and BOOTFAILED bit 57 |
| GptFormat.EntryFields | boot/common/gpt.c:300-302 | an entry laid out field by field, with their lengths, is decoded to its type, name and flags |
| GptFormat.DecodeEncodeSector | boot/common/gpt.c:71-76 | the four entries written to a table sector are those read from it |
| GptFormat.ClearingMeChangesCrc | boot/common/gpt.c:74-86 | clearing a set BOOTME bit anywhere in a table changes its CRC |
| GptFormat.SealSeals | boot/common/gpt.c:81-83 | a header with its two checksums recomputed passes both checks, for every checksum, and keeps every other field |
| GptFormat.EncodeHdrExact | boot/common/gpt.c:84-86 | a header survives being written and reread exactly when nothing but zeros follows its declared size |
| GptFormat.HeaderFields | boot/common/gpt.c:194-204 | which bytes of a header each of its fields is, by offset and length |
| GptFormat.ValueOfFour | boot/common/gpt.c:194-204 | numbers of four bytes are little-endian |
| GptFormat.HeaderDamage | boot/common/gpt.c:202-209 | a change of one byte of a header other than in its size field keeps its checksum right if and only if the byte lies past the declared size and outside the checksum field |
| GptSpec.AcceptedHeader | boot/common/gpt.c:184-211 | an accepted header is signed, names its own sector, has revision 1.0 or above and at most 128 entries of 128, 256 or 512 bytes |
| GptSpec.SealedAccepted | boot/common/gpt.c:81-86 | a good header with its checksums recomputed is accepted at the LBA it names, whichever that is |
| GptSpec.HeldIsRead | boot/common/gpt.c:184-315 | a copy that a drive holds byte by byte, header and entries, is accepted and read as it is |
| GptSpec.BackupFound | boot/common/gpt.c:340-356 | such a backup is found at the last LBA if the primary is rejected, and else where the primary points |
| GptSpec.FindEntries | boot/common/gpt.c:166-180 | gptfind changes nothing but BOOTME of the selected entry, of both copies, and only if it has BOOTONCE |
| GptSpec.FailedEntries | boot/common/gpt.c:213-230 | gptbootfailed changes nothing but the flags of the selected entry, of both copies, from BOOTONCE to BOOTFAILED, and only if it has BOOTONCE |
| GptSpec.ExplicitChoice | boot/common/gpt.c:98-111 | a partition asked for by number is selected if and only if it exists and has the type |
| GptCopy.UpdateSyncs | boot/common/gpt.c:56-90 | after gptupdate completes the drive holds exactly the edited copy, sectors it does not write included, and no write of it re-arms a partition |
| GptCopy.BootConvSyncs | boot/common/gpt.c:232-277 | after gptbootconv completes the drive holds exactly the converted copy |
| GptCopy.BootConvEntry | boot/common/gpt.c:241-267 | an entry of a whole sector with BOOTONCE alone has BOOTFAILED alone after gptbootconv and is otherwise as it was; every other entry is exactly as it was |
| GptCopy.BootConvExact | boot/common/gpt.c:241-267 | the entries left with BOOTONCE alone are exactly those that had it and lie past the last whole sector |
| GptCopy.TornUpdateRejected | boot/common/gpt.c:76-86 | a crash between the two writes of an update that clears a set BOOTME bit leaves a copy that is rejected |
| GptCopy.SyncReads | boot/common/gpt.c:184-315 | rereading a copy the drive agrees on succeeds and returns its header and entries |
| GptCopy.PutSafe | boot/common/gpt.c:76-89 | a single write of the protocol changes neither the layout nor the other copy |
| GptProtocol.KeepsInv | boot/common/gpt.c:317-381 | every step, a crash included, keeps the invariant that ties drive, memory and queued writes together |
| GptProtocol.BootsOnceOnly | boot/common/gpt.c:92-182 | over any run of boots, crashes and checksum collisions no partition is returned twice while it carries BOOTME and BOOTONCE, and a copy once rejected stays rejected |
| GptProtocol.RereadsMemory | boot/common/gpt.c:317-381 | whenever no call is in progress, rereading each copy gives what memory holds of it, or nothing for a rejected one |
| GptProtocol.OnceOnlyIsBooted | boot/common/gpt.c:364-376 | if failed selections are reported, an entry with BOOTONCE alone in a whole sector of a valid copy is the partition selected last, and it is being tried; the entries past the last whole sector are the subject of GptWitness.OnceOnlyExact |
| GptProtocol.WholeSectorsOnlyBooted | boot/common/gpt.c:364-376 | with a multiple of four entries that holds for every entry in use, after every disciplined run |
| GptWitness.OnceOnlyExact | boot/common/gpt.c:241-267 | for every checksum: it holds for all entries in use, over all drives and disciplined runs, if and only if the number of entries is a multiple of four |
| GptWitness.LastEntryLeft | boot/common/gpt.c:241-267 | for each other number of entries, a drive and a run of boot, selection, crash and boot after which the last entry has BOOTONCE alone and nothing is being tried |
| GptWitness.FifthEntryLeft | boot/common/gpt.c:241-267 | such a run with five entries, the fifth of them armed |
| GptSession.SessionOffers | boot/common/gpt.c:92-182 | the i-th automatic gptfind of a session returns the i-th partition of the offer and then -1 for ever, whichever were reported failed |
| GptSession.OfferOrder | boot/common/gpt.c:113-148 | no partition is offered twice; those with both flags come first, all of them, in ascending order, then the rest in ascending order |
| GptSession.OfferExact | boot/common/gpt.c:113-162 | the whole offer by the flags of the entries: those with both flags in order; then, unless the last entry is one of them, those with BOOTME alone in order; if there is neither, the first of the type |
| GptSession.OfferSecondRun | boot/common/gpt.c:113-148 | a partition with BOOTME alone is offered if and only if the last entry is not an eligible one with both flags |
| GptWitness.SecondRunLost | boot/common/gpt.c:113-148 | a table of two entries whose first, with BOOTME alone, is never offered |
| GptSession.OfferFallback | boot/common/gpt.c:149-162 | a partition without BOOTME is offered only if no entry of the type has it, and then it is the first of the type and the only one |
| GptLoader.Gpt.Update | boot/common/gpt.c:56-90 | writes the one table sector and the resealed header, in that order |
| GptLoader.Gpt.Find | boot/common/gpt.c:92-182 | selects, edits and writes as specified, for automatic and explicit selection; entry by entry, BOOTME goes from the selected entry of each copy if it has BOOTONCE and nothing else changes; the partition returned is that entry, with its first LBA |
| GptLoader.Gpt.Scan | boot/common/gpt.c:113-148 | moves `curent` to the first eligible entry from where it stands, or to the end |
| GptLoader.Gpt.ReadHeader | boot/common/gpt.c:184-211 | accepts a header exactly when signature, checksum, own LBA, revision and limits are right |
| GptLoader.Gpt.ReadTable | boot/common/gpt.c:279-315 | fills the table from the sectors and accepts it exactly when its checksum is right |
| GptLoader.Gpt.BootFailed | boot/common/gpt.c:213-230 | entry by entry: BOOTONCE becomes BOOTFAILED in the selected entry of each valid copy if it is set, and nothing else changes; each edited copy is written |
| GptLoader.Gpt.Convert | boot/common/gpt.c:232-277 | entry by entry: BOOTONCE alone becomes BOOTFAILED alone in every whole sector and nothing else changes; writes exactly the sectors that changed, then the header |
| GptLoader.Gpt.Read | boot/common/gpt.c:317-381 | reads both copies, locating the backup as the source does, and converts them, each entry as in Convert; a session starts with nothing selected |
| ModuleLoader.Loader.LoadKld | boot/common/module.c:458-507 | ends for every dependency graph; on success every file added is what its image says, and every dependency its image lists is answered; on failure list and load address are what they were |
| ModuleLoader.Loader.ModLoad | boot/common/module.c:422-451 | the same by module name and version, and nothing is loaded if a file in the list answers |
| ModuleLoader.Loader.LoadDependencies | boot/common/module.c:301-346 | loads what the dependencies of a file need, each checked again after loading |
| ModuleLoader.Loader.FindModuleIn | boot/common/module.c:531-563 | the preferred version if present, else the highest acceptable one; none exactly when no module answers |
| ModuleLoader.Loader.FindModule | boot/common/module.c:531-563 | finds a module exactly when some file of the list answers |
| ModuleLoader.Loader.FindFile | boot/common/module.c:514-524 | finds the file of a name, or that there is none |
| ModuleLoader.Loader.FileLoad | boot/common/module.c:272-298 | tries the format handlers in turn until one knows the file; gives a fresh file with the size, modules and dependencies of its image, at the next page behind the others or at its own address if it is the kernel, or the error of the handler that knew it, or that none did |
| ModuleLoader.Loader.Load | boot/common/module.c:98-155 | raw, by file or by module: the file or module is in the list and every dependency that the image of any file lists is answered, or the list is as it was |
| ModuleLoader.Loader.LoadRaw | boot/common/module.c:352-414 | appends the file as it is behind the others, or leaves list and load address alone; nothing before a kernel |
| ModuleLoader.Loader.Unload | boot/common/module.c:198-210 | frees every file and resets the load address |
| ModuleLoader.KldSatisfies | boot/common/module.c:458-507 | after a successful load every dependency of every file added is answered, whatever the graph |
| ModuleLoader.KldLoadsImages | boot/common/module.c:458-507 | every file a successful load adds is what its image says, kernel or module, and every dependency its image lists is answered |
| ModuleLoader.KldSucceeds | boot/common/module.c:458-507 | a load succeeds, with the file then in the list, if it belongs to a set of modules each dependency of which is provided by one of the set, cyclic sets included |
| ModuleLoader.KernelLoads | boot/common/module.c:458-507 | a kernel loads into the empty list at its own address |
| ModuleLoader.DepsSatisfy | boot/common/module.c:301-346 | each dependency answered once stays answered while later ones are loaded |
| ModuleLoader.LoadsStayClosed | boot/common/module.c:98-155 | after any run of loads, successful or not, every file is what its image says and every dependency its image lists is answered |
| ModuleLoader.MissingDrops | boot/common/module.c:470-490 | linking a file in leaves fewer files not in the list: what makes the recursion end |
| BlockCache.BCache.Strategy | boot/common/bcache.c:226-254 | a successful read fills the buffer as the device would, across writes, time-outs, evictions and unit switches; a request fails only with the error of the last transfer it made; a read transfers only blocks of which no slot is fresh, and all of those, so that one of blocks all in fresh slots makes no transfer and succeeds; with fewer than 2^31 insertions the blocks it transfers are all in the cache after it; into an emptied cache a read of two or more leaves all its blocks if and only if its last insertion is at most the 2^31 + 1st; only a bypassing write can break agreement, and exactly when it does |
| BlockCache.BCache.ReadStrategy | boot/common/bcache.c:160-220 | hits from the cache and misses from the device together give the device's blocks, with the same statement about transfers |
| BlockCache.BCache.WriteStrategy | boot/common/bcache.c:127-153 | invalidation, device write and insertion leave cache and device in agreement, also when the write fails, and with fewer than 2^31 insertions the blocks written in the cache |
| BlockCache.BCache.Insert | boot/common/bcache.c:262-291 | takes the slot after slot 0 that holds the block, else the oldest one |
| BlockCache.BCache.Invalidate | boot/common/bcache.c:319-332 | clears the first slot that holds the block and no other |
| BlockCache.BCache.Lookup | boot/common/bcache.c:298-314 | a hit returns the data of a slot that holds the block and is not too old; a miss means there is none |
| BlockCache.BCache.Flush | boot/common/bcache.c:109-121 | empties every slot, after which the cache agrees with any device |
| BlockCache.InsertCoherent | boot/common/bcache.c:262-291 | inserting a block keeps agreement, and keeps a block from two slots other than slot 0 and one more |
| BlockCache.InsertKept | boot/common/bcache.c:262-291 | the oldest block makes room: with fewer insertions than slots, and none counted as negative, no block inserted makes room for another |
| BlockCache.InsertLosing | boot/common/bcache.c:262-291 | after 2^31 insertions it does: the first block counted as negative makes room for the next |
| BlockCache.AllGo | boot/common/bcache.c:255-291 | of two or more blocks inserted into an emptied cache all stay if and only if the last is at most the 2^31 + 1st insertion |
| BlockCache.ReadBack | boot/common/bcache.c:226-254 | blocks written and read back before the time-out, with fewer than 2^31 insertions, make one transfer, and read as they were written |
| BlockCache.InvalidateClears | boot/common/bcache.c:319-332 | stopping at the first match still leaves slot 0 free of every block about to be written |
| BlockCache.WriteLeaves | boot/common/bcache.c:127-153 | after the device changed, only slots that insertion will find are out of date |
| BlockCache.BypassedWrite | boot/common/bcache.c:241-244 | a bypassing write keeps agreement if and only if no slot holds an overwritten block with other contents |
| BlockCache.BypassedWriteStale | boot/common/bcache.c:241-244 | a run on a cache of two slots, a read of one block and a write of two, after which a slot holds the old contents of a block the device has rewritten |
| Math64.LongMul | boot/ficl/math64.c:494-512 | the exact 64-bit product |
| Math64.LongDiv | boot/ficl/math64.c:521-558 | ends for every dividend and positive divisor; remainder exact, quotient modulo 2^32 |
| Math64.Add | boot/ficl/math64.c:356-374 | the sum modulo 2^64, carry by comparison |
| Math64.Sub | boot/ficl/math64.c:381-394 | the difference modulo 2^64 |
| Math64.Asl | boot/ficl/math64.c:401-414 | doubling modulo 2^64 |
| Math64.Asr | boot/ficl/math64.c:421-433 | halving, rounded down |
| Math64.Or64 | boot/ficl/math64.c:440-448 | the bitwise or of the 64-bit values |
| Math64.Compare | boot/ficl/math64.c:455-485 | the order of the 64-bit values |
| Math64.Mac | boot/ficl/math64.c:149-162 | multiply and add, modulo 2^64 |
| Math64.UMod | boot/ficl/math64.c:316-344 | quotient and remainder by four 16-bit steps, exact for every base below 2^16 |
| Math64.MulI | boot/ficl/math64.c:169-191 | the exact signed product, most negative cells included |
| Math64.Negate | boot/ficl/math64.c:198-207 | exact negation but for the most negative number, which stays |
| Math64.FlooredDivI | boot/ficl/math64.c:92-128 | whenever the floored quotient fits a cell, it and its remainder are returned, for every sign and the most negative dividend; otherwise the remainder is exact and the quotient is cut to a cell |
| Math64.SymmetricDivI | boot/ficl/math64.c:261-290 | the same for symmetric division |
| Math64.ToIntFits | boot/ficl/math64.c:92-128 | the quotient is the exact one if and only if that fits a cell |
| Math64.FlooredUnique | boot/ficl/math64.c:92-128 | section 3.2.2.1 of ANS X3.215-1994 leaves no other floored quotient and remainder |
| Math64.SymmetricUnique | boot/ficl/math64.c:261-290 | nor any other symmetric ones |
| Math64.ToNumber | boot/ficl/words.c:3048-3089 | continues an accumulator over the characters that are digits in the base, modulo 2^64, and stops at the first that is not, whatever the bytes |
| Math64.AccumulatedIsNumber | boot/ficl/words.c:3048-3089 | from zero that is the number the digits stand for, if it fits |
| Math64.NumberSign | boot/ficl/words.c:2924-2939 | each application of m64UMod takes one digit off |
| Math64.DigitsOfNumber | boot/ficl/math64.c:316-344 | taking as many digits off a number as it was built from gives them back in reverse, leading zeros included, and leaves zero |
| Math64.BuildAndPrint | boot/ficl/math64.c:149-162 | folding m64Mac over digits and then taking them off with m64UMod gives them in reverse and ends at zero, for every base from 2 to 65535 and every sequence of digits whose value fits 64 bits |
| Math64.BuildDigits | boot/ficl/math64.c:149-162 | the fold of m64Mac over any digits, modulo 2^64 |
| Math64.BuildAndPrintText | boot/ficl/words.c:3048-3089 | the same round trip from text |
| Math64.NumberSignS | boot/ficl/words.c:2970-2990 | repeated m64UMod gives the digits, lowest first, and ends at zero |
| Math64.PrintsWhatWasBuilt | boot/ficl/math64.c:149-162 | for every base and digits without a leading zero, printing the number built gives the digits in reverse |
| Math64.BuildsWhatWasPrinted | boot/ficl/math64.c:316-344 | reading back the digits printed gives the number |
| Math64.PrintAndRead | boot/ficl/words.c:2970-2990 | for every number and every base from 2 to 36 the characters printed are digits of the base and read back, to the last, as that number |
| Math64.DigitIsRead | boot/ficl/words.c:3067-3073 | every digit up to 35 is read as itself, a letter in either case |
| Math64.DigitChars | boot/ficl/words.c:3067-3079 | the characters read as digits of a base are its digits and those of codes 91 to 96, which pass for the digits 4 to 9 |
| Math64.OnlyDigitsRead | boot/ficl/words.c:3074-3079 | no character but the digits of the base is read as one if and only if the base is at most 4 |
| UfsReader.Ufs.Fsread | boot/common/ufsread.c:166-302 | delivers the next bytes of the file from where the last read of that inode ended, or from its start after another inode: all that were asked for or all that are left, and fails exactly when the range asked for, cut at the size, runs past the last byte it can map, having delivered all before that; it is one step of the run in ReadsAreConsecutive |
| UfsReader.Ufs.CopyAll | boot/common/ufsread.c:249-300 | every pass copies at least one byte or reports the end of the mappable part |
| UfsReader.Ufs.Fetch | boot/common/ufsread.c:250-292 | the buffer holds the file's bytes from the current offset to the end of the virtual block, and there is at least one |
| UfsReader.Ufs.MapBlock | boot/common/ufsread.c:250-282 | the address of a block, direct or through the cached indirect block, is the one the file has |
| UfsReader.Ufs.LoadBlock | boot/common/ufsread.c:283-292 | the data buffer holds the drive's bytes at `blkmap`, read again only if it did not |
| UfsReader.Ufs.LoadInode | boot/common/ufsread.c:220-242 | the cached inode is that of the inode table, and a switch resets the offset and both block caches |
| UfsReader.ReadsAreConsecutive | boot/common/ufsread.c:166-302 | in any run of requests, of any sizes and with any switches between inodes, each answer is the slice of its own file that begins where earlier answers from it ended, or at its start after a switch, and ends where the request, the file or its mappable part does |
| UfsReader.ChunkBytes | boot/common/ufsread.c:283-296 | the bytes of a virtual block are those of the file at the offset |
| UfsReader.FileByteAddress | boot/common/ufsread.c:249-292 | where on the drive each byte of a file is, by block number, fragment and block size |
| UfsReader.InodeAddress | boot/common/ufsread.c:220-230 | where on the drive each inode is, by cylinder group and place in it |
| ElfImage.Memory.Bzero | boot/common/misc.c:97-111 | clears exactly the region, in chunks of 256 |
| ElfImage.Memory.Pread | boot/common/misc.c:118-133 | succeeds exactly when the file has all the bytes, and then the region holds them |
| ElfObject.ObjLoader.LoadImage | boot/common/load_elf_obj.c:218-329 | up to the module metadata, succeeds exactly when the headers are well formed and the sections lie in the file; then exactly the PROGBITS and NOBITS sections of some size, the REL and RELA sections, the symbol table, its strings and the section names have addresses, each of them the exact one; sections are aligned, disjoint and within bounds, each one read was read once, and memory is the image described |
| ElfObject.ObjLoader.PlaceSections | boot/common/load_elf_obj.c:223-292 | which sections get addresses, by type, and the exact address of each: code, data and bss in order, room for one more symbol table, the three tables, then relocations in order; aligned, disjoint and in [firstaddr, lastaddr) |
| ElfObject.ObjLoader.NextSection | boot/common/load_elf_obj.c:305-319 | the first unread section with the lowest offset, or none exactly when all offsets are done |
| ElfObject.ObjLoader.ReadSections | boot/common/load_elf_obj.c:297-329 | ends; fails exactly when a section is not all in the file; otherwise reads them in ascending order of offset, none twice |
| ElfObject.ReadNext | boot/common/load_elf_obj.c:297-329 | reading the next section extends the image and spoils no other section |
| ElfObject.ContentsExact | boot/common/load_elf_obj.c:294-329 | a section with contents, placed and within the file, holds its file bytes if and only if no earlier one shares its offset or those bytes are all zero |
| ElfObject.NobitsZero | boot/common/load_elf_obj.c:294-329 | every byte of a section without contents is zero |
| ElfObject.SharedOffsetUnread | boot/common/load_elf_obj.c:218-329 | a file of five sections, the null section first, that is placed and read without an error and has zeros where its code should be |
| ElfSegments.SegmentLoader.LoadSegments | boot/common/load_elf.c:314-371 | fails exactly when a segment runs past the file; in ascending order every segment ends up as its file bytes followed by zeros, at its linked address plus the offset; bounds as specified |
| ElfSegments.SegmentLoader.LoadSegment | boot/common/load_elf.c:334-358 | first-page copy, remainder and clearing together, spill included, byte by byte |
| ElfSegments.SegmentHolds | boot/common/load_elf.c:314-371 | for every file of its length and any earlier memory a segment is intact at the end if and only if each of its addresses is last written from the same place of the file, or with zero where it has zero |
| ElfSegments.Input.HoldsAtItsPlace | boot/common/load_elf.c:314-358 | a segment is intact exactly if its file bytes and then zeros are at its linked address plus the offset |
| ElfSegments.ApartSurvives | boot/common/load_elf.c:314-371 | that is so if no later segment writes into it, however far copies spill elsewhere |
| ElfSegments.AllHold | boot/common/load_elf.c:314-371 | in ascending, non-overlapping order every segment holds its file bytes and then zeros |
| ElfSegments.OutOfOrderSpills | boot/common/load_elf.c:334-339 | with a first page of 4096 bytes, a segment whose copy overwrites the one loaded before it just above, for every file with different bytes at the two places |
| ElfSegments.ElsewhereKept | boot/common/load_elf.c:334-358 | nothing outside the segments and their copies changes |
| ElfSegments.LastIsHighest | boot/common/load_elf.c:368-371 | lastaddr is the highest end of a segment |
| ElfSegments.FirstIsLowest | boot/common/load_elf.c:366-367 | firstaddr is the lowest base if and only if no segment is loaded at address 0 or the last one is |
| ElfSegments.FirstForgotten | boot/common/load_elf.c:366-367 | a segment at address 0 that is forgotten by the next |
| WordSpec.SameNameIsFoldedEquality | boot/ficl/vm.c:773-786 | without NUL, strincmp's equality is equality of every character after case folding |
| WordSpec.FoldedAlike | boot/ficl/vm.c:773-786 | characters fold alike exactly when they are the same or one letter in its two cases |
| WordSpec.FirstExact | boot/ficl/dict.c:797-825 | a scan of a chain ends at its first word to have the length and, but for case, the characters of the name |
| WordSpec.HashFolds | boot/ficl/dict.c:733-756 | names that compare equal hash alike |
| WordSpec.HashOfDup | boot/ficl/dict.c:733-756 | the hash code of DUP is 0xb50, in which bits are folded back |
| WordSpec.LookupExact | boot/ficl/dict.c:797-825 | for names of any length, tables of every size give what the scan of all words gives if and only if the newest match has the hash code of the name looked up, or there is none |
| WordSpec.LongNameMissed | boot/ficl/dict.c:797-825 | names that agree in their first 31 characters and length but end differently: found with one bucket, missed with 65536 |
| WordSpec.LongNameExample | boot/ficl/dict.c:797-825 | two such names of 32 characters |
| WordSpec.HeaderProper | boot/ficl/dict.c:234-267 | exactly which names get a header that a short name can be looked up by: all of at most 255 characters, and of the others those whose length modulo 256 does not pass for a short one |
| WordSpec.OverlongNameMissed | boot/ficl/dict.c:234-267 | longer names that do pass for short ones: found by their first characters with one bucket, missed with 65536 |
| WordSpec.OverlongNameExample | boot/ficl/dict.c:234-267 | such a name of 257 characters |
| WordSpec.ShortNamesFound | boot/ficl/dict.c:797-825 | for names of at most 31 characters and any number of buckets lookup is the newest-first scan |
| WordSpec.InsertKeeps | boot/ficl/dict.c:766-785 | linking a new word in at the head of its bucket keeps every chain the list of its words, newest first |
| WordSpec.ForgetKeeps | boot/ficl/dict.c:701-722 | moving each head down past the mark gives the table of exactly the older words |
| WordSpec.ForgetRestoresLookup | boot/ficl/dict.c:701-722 | after definitions at or above a mark and a forget of it, every lookup finds what it found before |
| Dictionary.HashHashCode | boot/ficl/dict.c:733-756 | the 16-bit hash of the folded name up to any NUL |
| Dictionary.Strincmp | boot/ficl/vm.c:773-786 | zero exactly for names alike but for case |
| Dictionary.Dict.HashInsertWord | boot/ficl/dict.c:766-785 | adds the word as the newest definition and keeps all wordlists sound |
| Dictionary.Dict.HashLookup | boot/ficl/dict.c:797-825 | the first match in the probed buckets of a wordlist and those it inherits from |
| Dictionary.Dict.DictLookup | boot/ficl/dict.c:559-578 | for names of at most 31 characters, the first word of the search order, newest first in each wordlist, that has the length and, but for case, the characters of the name, or none, in every dictionary built from names of at most 255 characters |
| Dictionary.Dict.HashForget | boot/ficl/dict.c:701-722 | leaves exactly the definitions below the address |
| Dictionary.Dict.DictAppendWord2 | boot/ficl/dict.c:234-267 | puts name and header above everything, links the word in unless it is to stay smudged or has no name, and keeps headers proper for names of at most 255 characters |
| Dictionary.Dict.DictUnsmudge | boot/ficl/dict.c:667-681 | completes the pending definition as the newest, or leaves a nameless one unlinked |
| Dictionary.Dict.DictAbortDefinition | boot/ficl/dict.c:82-93 | takes `here` back to the pending word's name, and does nothing once the word is complete |
| Dictionary.Dict.BeginAndAbort | boot/ficl/ficl.c:425-446 | a definition begun and abandoned leaves every lookup as it was and its memory free |
| Dictionary.Dict.Forget | boot/ficl/tools.c:715-727 | for a word of any wordlist: the definitions left in the compilation wordlist are exactly those below its name, where free memory now begins; the dictionary is in order if and only if every word still linked in ends below that and no definition is in progress, and never if the word was in another wordlist |
| Dictionary.ForgottenBelow | boot/ficl/tools.c:715-727 | a run on two wordlists after which a later word is linked in above the memory in use |
| Dictionary.ForgottenElsewhere | boot/ficl/tools.c:715-727 | a word forgotten while another wordlist is compiled into stays linked in itself |
| Dictionary.Dict.DefineAndForget | boot/ficl/tools.c:715-727 | a word defined and then forgotten leaves memory, definitions and every lookup as they were |
| Dictionary.Dict.DefineAndFind | boot/ficl/dict.c:559-578 | a word of at most 31 characters defined in the wordlist on top is found at once, however its name is capitalised |
| Dictionary.ProbedSuffices | boot/ficl/dict.c:559-578 | across a whole search order one bucket per wordlist is enough |
| Dictionary.SearchOrder | boot/ficl/dict.c:559-578 | the definitions searched are those of wordlists pushed later, then those of a wordlist and those it inherits from, then those of wordlists below |
| Slices.SliceReader.CheckExtended | boot/common/disk.c:125-169 | ends for every disk content and does what the pure walk does, the early exit on a full table included |
| Slices.SliceReader.AddSlices | boot/common/disk.c:149-159 | copies the used entries, moved by the base in 32 bits, until the table is full |
| Slices.InUseAt | boot/common/disk.c:149-159 | entry by entry: where each entry in use of a partition table goes, with its start moved by the base modulo 2^32 and its other fields kept |
| Slices.InsideExact | boot/common/disk.c:131-159 | what the slices inside a slice are, by the fields of its table's entries |
| Slices.SliceReader.ReadSlicetab | boot/common/disk.c:171-211 | the table and slice count are those of the pure walk, or there is no table |
| Slices.EachSlotAtMostOnce | boot/common/disk.c:125-210 | for every disk content, cyclic chains included, at most 32 slices, no slot examined twice, every slice found is one the boot record leads to, and a slice finds no room only if 32 are found |
| Slices.FindsExactlyTheReachable | boot/common/disk.c:125-210 | if every slice found room, a table of exactly 32 included, every slot is examined and a slice is found if and only if the boot record leads to it |
| CommandLine.Backslash | boot/common/interp_backslash.c:30-167 | ends on every input, the digit that starts no number included, and writes at most as many characters as it was given |
| CommandLine.UnchangedIffStable | boot/common/interp_backslash.c:55-64 | text is unchanged if and only if every backslash in it is before a quote or a dollar sign or at its end, and all other text gets shorter |
| CommandLine.LetterEscapes | boot/common/interp_backslash.c:65-102 | what each letter after a backslash stands for |
| CommandLine.OtherEscapes | boot/common/interp_backslash.c:48-147 | other characters that are no digits stand for themselves, but quotes and dollar signs keep their backslash |
| CommandLine.OctalEscapes | boot/common/interp_backslash.c:104-121 | for each number below 256, a backslash and its three octal digits are that character |
| CommandLine.HexEscapes | boot/common/interp_backslash.c:123-140 | for each number below 256, its two hexadecimal digits after 0x are that character, in either case |
| CommandLine.ShortHexEscapes | boot/common/interp_backslash.c:123-140 | one hexadecimal digit is enough when no other follows |
| CommandLine.Unargv | boot/common/misc.c:38-60 | the words with one blank between them, or nothing for no words |
| CommandLine.Parse | boot/common/interp_parse.c:78-197 | the state machine's outcome; words returned are non-empty, shorter than 1024 and fewer than 20 |
| CommandLine.QuotedIsOneWord | boot/common/interp_parse.c:106-127 | text between quotes, its blanks included, is one word; nothing between quotes is none; the two quotes need not be of one kind |
| CommandLine.BlanksPartWords | boot/common/interp_parse.c:110-117 | exactly the six blanks of the C locale part words |
| CommandLine.ParseUndoesUnargv | boot/common/interp_parse.c:78-172 | parse returns the plain words unargv was given if and only if there are some but fewer than 20 and each is shorter than 1024 |
| CommandLine.ParseUndoesJoin | boot/common/interp_parse.c:78-172 | the same for words of any characters but NUL, once written with backslashes |
| CommandLine.ParseOfJoin | boot/common/interp_parse.c:78-197 | the outcome of every line of such words: the words, a failure or an overrun |
| CommandLine.OverrunExact | boot/common/interp_parse.c:161-165 | the vector's terminator falls outside it if and only if there are 20 words and each is shorter than 1024 |
| CommandLine.TwentyWords | boot/common/interp_parse.c:161-165 | such a line, and one with a word more, which fails |

## Left out

- GPT tables with `hdr_entsz` other than 128 or headers larger than the structure: the source strides by one size and checksums by another.
- Failing sector writes and reads in `gpt.c`: only a crash stops a write.
- Module loading: `linker.hints` parsing, path search, `stat`, module arguments, the `arch_loadaddr` hook and memory-allocation failure.
- Block cache: hit, miss and flush statistics, the size reported to the caller, partial blocks, and two devices that share a unit number.
- `UfsReader`: the superblock search (`boot/common/ufsread.c:186-217`), directory lookup and failed reads.
- The 64-bit-cell variant of `math64.c` and its stack operations.
- `load_elf.c` and `load_elf_obj.c`: symbol tables of kernels, module metadata, relocation, and wrap-around of addresses.
- Dictionary: limits on its memory, `here` moved by anything but definitions and FORGET, and the uses of a word's flags other than smudging.
- `disk.c`: device descriptors, printing, GPT slices, BSD labels and the choice of a slice.
- CommandLine.Parse: `$` expansion ends the model with the outcome `Expand`; the static vector is a sequence with its bound, and the copy handed to the caller is not modelled.
- The graphical ZFS manager, console, network and port I/O code, and the inner interpreter of ficl.
