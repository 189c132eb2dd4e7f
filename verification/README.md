# Verified model of pe2elf and its WinAPI shim

pe2elf turns a PE32+ executable into an ELF64 file that the Linux loader can map and relocate; a shim library then
provides the Windows API to the running program. This project models the parts of both where a mistake would be silent,
and proves what they are for.

- **The converter** (`PeImage`, `Names`, `HashTable`, `Layout`, `Build`, `Assemble`, `Output`, `Builder`, `Converter`) from
  the collected image to the bytes of the output file, together with two reference loaders: `PeLoader` maps a PE image,
  adds the load distance at every DIR64 site and fills the import slots; `ElfLoader` takes nothing but the bytes of an ELF
  file, maps its PT_LOAD segments, walks its dynamic section and runs its relocations. `LoadEquiv.LoadsTheSame` says that
  the two memories agree at every section byte, for every well-formed image and every load bias. `Rebase` and
  `RebasedFile` do the same for `--base`, `Exports` for `--so` symbol lookup, and `Segments` for the headers; `Processor`
  decodes and runs the startup trampoline, `Startup` and `Entry` say where it leads; `RelocDirectory` is the linker that
  wrote the relocations; `EndToEnd` states it of a whole conversion. `FileReads`, `Mapping` and `TablesRead` are the steps in
  between; `Witness` exhibits images that meet all the assumptions.
- **msvcrt_qsort** (`Qsort`), on bytes in place, with its explicit stack.
- **Printer and parser** (`Utf`, `UtfMethods`, `CmdLine`, `CmdLineShim`, `ArgvBlock`, `CmdLineRun`, `Paths`): the
  UTF-8/UTF-16 codecs, the command line that is quoted and split again, and lexical path folding in a fixed buffer.
- **Handles** (`Handles`, `Signals`, `FindNext`, `WaitAll`): the handle table and its reference counts as a state machine
  of atomic steps by any number of threads, what waits find in every run, and the wait-all round with its rollback.
- **Vectored handlers** (`Veh`): the doubly linked list as a sequence.

Integers are unbounded; a width is written out wherever the source can notice it (`% U32`, `% U64`, `Le(n, v)`, the signed
32-bit jump). C bit operations are written as arithmetic, those of the symbol hash bit by bit (`Bits`). Loops whose body is long
are split into a method for the body; specification functions and the methods proved against them are separate.

The well-formedness that the load theorem assumes (`FileReads.Convertible`): page-aligned base and section addresses,
sections pairwise disjoint and above the page-rounded headers, raw data inside a file below 4 GiB, DIR64 sites and import
slots whole in raw data and pairwise apart (a slot may itself be a site), names without zero bytes, tables that fit their
32-bit fields, no more sections than the parser takes, and a synthetic segment that ends at or below the base.

Results that differ from what one might expect:

- The command line round trip holds exactly when argv[0] has no quote, or has no blank and does not start with one
  (`CmdLineShim.CommandLineRoundTrip`); the comment in shim.cpp rules quotes in argv[0] out altogether.
- With 87 or more sections, which the parser still accepts, the synthetic segment can run over the image base
  (`Witness.CrowdedPlan`), because its room is computed for 20 program headers; `Layout.SynthBelowBase` gives the exact
  condition.
- Rebasing in the file differs from relocating at load time when sections share the file data of a pointer
  (`Rebase.SharedDataDiffers`); `Rebase.RebaseIsLoad` gives the exact condition, byte by byte, and `Rebase.FineIs` its
  closed form where no two pointers overlap in the file without coinciding.
- FindNextFileW tests, reads and stores its position without a lock: two calls on one find handle can read past the names
  (`FindNext.Overrun`). `FindNext.SafeIff` says from which states every schedule reads only names, and
  `FindNext.AtOnceIff` how many calls at once are safe: one, or any number when no name is left, or as many as there are
  names left.
- A SizeOfHeaders past the end of the input, converted without section headers, gives a last PT_LOAD past the end of the
  file (`Segments.HeaderRunsPast`); everywhere else file ranges hold what was built for them (`Segments.SegmentsHold`).
- A relocation block size can take the 32-bit cursor back, and then the block loop need never stop
  (`PeImage.CycleNeverEnds`); it stops if and only if it stops within as many blocks as the directory's end has bytes
  before it (`PeImage.EndsIff`), and always if each block it visits is inside the directory (`PeImage.InsideEnds`).
- A file built with `--pie` and loaded at another address passes shim_register_tls the TLS addresses of the file: only
  `--so` has them relocated (`Entry.RecordFollows`).
- The 0xC3 byte that `--so` makes the entry point can be in an import slot or a pointer, and then is not there once loaded
  (`Witness.TrapPlan`; the exact condition is `Entry.SafeEntryReturns`).
- `--strip-pdata` leaves a relocation to unmapped memory when the section has a pointer (`Segments.DroppedTarget`), and
  in a shared object an import of register_tls from shim.dll is shadowed (`Exports.ShimImportMissed`).
- win_path_to_posix given a buffer of one byte writes two (`Paths.WinPathToPosix`).
- `--base` together with `--pie` gives a file whose pointers stay at the new base wherever it is loaded
  (`RebasedFile.RebasedLoadsTheSame`).

## Model

| member | source | states |
|---|---|---|
| `LoadEquiv.LoadsTheSame` | elf_build.hpp:116-505 | For every well-formed image, every option set and every bias (0 for ET_EXEC), the byte of the loaded ELF file at each section address is the byte a PE loader leaves there at the same distance: mapped data, DIR64 sites moved, import slots resolved by prefixed name |
| `LoadEquiv.BytesAgree` | elf_build.hpp:166-179 | On any memory that holds the section data with zeroed slots, the built relocations produce the memory of the loaded PE image |
| `LoadEquiv.AtSlot` | elf_build.hpp:166-171 | At an import slot the relocations leave the address of the symbol that the import is named after, whatever base relocations there are |
| `LoadEquiv.AtPointer` | elf_build.hpp:173-179 | At a kept DIR64 site they leave the stored pointer plus the bias, modulo 2^64 |
| `LoadEquiv.AtRest` | elf_build.hpp:166-203 | Everywhere else in a section they leave the mapped byte |
| `LoadEquiv.ChunkIs` | elf_build.hpp:356-378 | Zeroing the slots changes no byte outside them |
| `LoadEquiv.ElfByteIs` | elf_write.hpp:21-103 | What an ELF loader computes from the bytes of the written file is the built relocations applied to the mapped segments |
| `RebasedFile.RebasedLoadsTheSame` | pe2elf.cpp:48-49 | With `--base`, whatever the other options and the bias, a section byte of the loaded file is that of the original image mapped at the new base if and only if it is fine: in an import slot, past the raw data, or patched to what loading gives |
| `Rebase.RebaseIsLoad` | pe_image.hpp:502-540 | rebase succeeds iff the base is unchanged or there are relocations; the patched image loaded as it stands is the original loaded at the new base at every section byte if and only if every byte is fine, a condition on the input and the distance alone, for every layout of the pointers in the file |
| `Rebase.RebasedByte` | pe_image.hpp:502-540 | The same byte by byte |
| `Rebase.FineIs` | pe_image.hpp:515-533 | Where pointers coincide or are apart in the file, a byte is fine iff it is in a slot, is no pointer's file data, or is moved by the distance as often as pointers share it to the value that moving it once, or not at all where no pointer covers it, gives |
| `Rebase.PatchedSome` | pe_image.hpp:515-533 | Patching never fails on sites inside raw data |
| `Rebase.AloneIsFine` | pe_image.hpp:502-540 | When each kept site's file bytes back no other section byte, every byte is fine for every distance |
| `Rebase.PatchedIs` | pe_image.hpp:515-533 | Where pointers coincide or are apart in the file, each window is moved by the distance modulo 2^64 as often as a site has it, and all other file bytes stay |
| `Rebase.SharedDataDiffers` | pe_image.hpp:515-533 | Behind any headers of up to a page, a well-formed image with two sections on the same file data for which patching and loading differ |
| `Rebase.RawApartAlone` | pe_image.hpp:502-540 | When sections share no file data, every site's file bytes are its own |
| `PeLoader.MemoryIs` | pe_image.hpp:396-468 | Closed form of the PE loader's memory: slots, then kept sites, then mapped bytes, independent of the order in which sites are relocated |
| `PeLoader.RelocsAre` | pe_image.hpp:430-464 | collect_relocs keeps exactly the sites that are not import slots, each with its address and the pointer stored there |
| `PeLoader.RelocatedAt` | pe_image.hpp:438-458 | Adding the distance at disjoint sites, in any order, moves each stored pointer once |
| `PeImage.FindOffset` | pe_image.hpp:25-35 | The search loop gives the file offset of the first section whose raw data holds the address |
| `PeImage.FindSection` | pe_image.hpp:37-44 | The search loop gives the first section that contains the address, or -1 |
| `PeImage.SectionOf` | pe_image.hpp:37-44 | The result contains the address and no earlier section does |
| `PeImage.PeFile.CollectRelocs` | pe_image.hpp:416-467 | Whenever the block loop stops at all, with its 32-bit cursor, it appends exactly the relocations of the DIR64 sites of the blocks it visits, in order, and changes nothing else |
| `RelocDirectory.DirectoryRead` | pe_image.hpp:416-467 | For every list of relocation blocks written in the PE format anywhere in a file, of DIR64 entries and any others: the loop stops after the last block, and its sites are exactly page plus offset of the DIR64 entries, in order |
| `RelocDirectory.SitesWritten` | pe_image.hpp:416-467 | The same in the terms of the conversion |
| `PeImage.EndsIff` | pe_image.hpp:424-466 | The loop stops if and only if it stops within as many blocks as the directory's end has bytes before it, which can be decided before the call |
| `PeImage.CycleNeverEnds` | pe_image.hpp:424-466 | On every file with a block of 8 bytes and next to it one of 2^32 - 8 bytes, the loop never stops once it is at either |
| `PeImage.ForwardEnds` | pe_image.hpp:424-466 | It stops on every directory whose visited blocks stay below 2^32 |
| `PeImage.InsideEnds` | pe_image.hpp:424-466 | It stops on every directory whose visited blocks end inside it |
| `PeImage.SitesSettled` | pe_image.hpp:424-466 | The sites found do not depend on how many further blocks are allowed |
| `PeImage.PeFile.CollectBlock` | pe_image.hpp:430-464 | One block contributes the relocations of its DIR64 entries, stopping where the file ends |
| `PeImage.PeFile.AddSite` | pe_image.hpp:438-458 | One DIR64 entry is kept iff it lies in raw data inside the file and is no import slot |
| `PeImage.PeFile.IsIatVa` | pe_image.hpp:410-414 | True exactly for the address of some import slot |
| `PeImage.PeFile.PatchSite` | pe_image.hpp:515-533 | Adds the distance modulo 2^64 at one site that passes the 32-bit bounds test, or fails and changes nothing |
| `PeImage.KeptSites` | pe_image.hpp:515-533 | Every relocation that collect_relocs kept is found again inside the file, so rebase writes nowhere else, and below 4 GiB none of its checks fails |
| `PeImage.RebaseSucceeds` | pe_image.hpp:502-540 | For every input below 4 GiB, rebase fails only for want of relocations |
| `PeImage.PeFile.Rebase` | pe_image.hpp:502-540 | Fails exactly when specified, leaving the relocations before the bad one applied; otherwise leaves the rebased image |
| `PeImage.PeFile.CollectTls` | pe_image.hpp:470-496 | The TLS record is read from the file as it then is, if the directory is whole in raw data; otherwise nothing changes |
| `RelocDirectory.TlsWritten` | pe_types.hpp:122-129 | A TLS directory written field by field is read back as its template, size, zero fill, flags, index and callbacks |
| `RebasedFile.TlsIsLoaded` | pe2elf.cpp:48-52 | Read after rebase, the directory is the one that the image loaded at the new base has in memory if and only if its bytes are fine |
| `Names.SymIndexes` | elf_build.hpp:136-151 | Every import's index is that of the symbol with its prefixed name, and two imports share an index iff they share a name |
| `Names.AssignIndexes` | elf_build.hpp:136-151 | The nested loops give the distinct names in order of first use and each import's index |
| `Names.MakeSymName` | elf_build.hpp:108-114 | The part before the last dot lower-cased, an underscore, the function name |
| `Names.Stem` | elf_build.hpp:109-111 | All of a name without a dot, and otherwise exactly what precedes its last dot |
| `Names.DllSpellings` | elf_build.hpp:108-114 | Whatever its extension and the case of its letters, a DLL has one lower-case prefix |
| `Names.StringAt` | elf_build.hpp:153-164 | In a table of zero-terminated names, the C string at each recorded offset is that name |
| `HashTable.LookupIsScan` | elf_build.hpp:76-100 | Walking the bucket of a name in the serialised table finds a symbol iff a linear scan of dynsym[1..] does, and finds the last one |
| `HashTable.TableIs` | elf_build.hpp:83-99 | The table's bytes hold, for each bucket, its highest symbol and, for each symbol, the next lower one of its bucket: chains strictly fall |
| `HashTable.BuildHash` | elf_build.hpp:78-100 | The in-place bucket and chain arrays, serialised, are that table |
| `HashTable.ElfSysvHash` | elf_build.hpp:65-74 | The loop computes the fold over the characters |
| `SymbolHash.HashAgrees` | elf_build.hpp:65-74 | For every name, the hash that the shifts and masks give is the gABI's, stated in arithmetic: 16 h + c, its low 28 bits with the top four folded into bits 4 to 7; it has 28 bits |
| `SymbolHash.ShortHash` | elf_build.hpp:65-74 | As long as the sum of c_i·16^(n-1-i) has 28 bits it is the hash |
| `SymbolHash.SixFit` | elf_build.hpp:65-74 | It has for up to six characters below 240 |
| `SymbolHash.EntrypointHash` | elf_build.hpp:65-74 | `_entrypoint` hashes to 0xa649be4 |
| `Exports.LookupFinds` | elf_build.hpp:205-242 | In the built tables a name is found iff it is among the symbol names, at its last symbol |
| `Exports.EntrypointFound` | elf_build.hpp:205-222 | `_entrypoint` always resolves to the exported trampoline, even if an import has that name |
| `Exports.ImportFound` | elf_build.hpp:136-164 | An import is found at the index its relocation uses if and only if its prefixed name is neither shim_register_tls nor _entrypoint |
| `Exports.ShimImportMissed` | elf_build.hpp:136-164 | An import of register_tls from shim or shim.dll is not: the lookup gives the converter's symbol, past all imports |
| `Exports.LookupRead` | elf_build.hpp:332-354 | A lookup through the loaded file's DT_HASH, DT_SYMTAB and DT_STRTAB is the lookup in the tables that were built |
| `Exports.LoadedLookup` | elf_build.hpp:205-242 | In the loaded shared object a name is found iff it is among the symbol names, at its last symbol |
| `Exports.EntrypointLoads` | elf_build.hpp:205-222 | In the loaded shared object `_entrypoint` is the defined symbol of the trampoline |
| `Exports.EntrypointAddress` | elf_build.hpp:205-222 | From the file's bytes alone, dlsym of `_entrypoint` gives the address of the trampoline |
| `Exports.HashSame` | elf_build.hpp:240-252 | Setting the exported symbol's value after the table is built leaves the table right |
| `Layout.ComputePlan` | elf_plan.hpp:48-133 | The running address and offset give each part its place, the section offsets included |
| `Layout.PlaceSections` | elf_plan.hpp:123-130 | Each section starts at the first page past the data of the sections before it |
| `Layout.AddressesFollowOffsets` | elf_plan.hpp:83-119 | Every synthetic part's address is the segment's plus its file offset, which is a multiple of 8 |
| `Layout.PartsInOrder` | elf_plan.hpp:78-130 | No part starts before the content planned ahead of it ends, program headers included |
| `Layout.SectionsInOrder` | elf_plan.hpp:123-130 | Section data is placed on pages, in order, without overlap, before the headers |
| `Layout.SynthBelowBase` | elf_plan.hpp:58-121 | Outside the fallback the synthetic segment ends at or below the base iff the headers not counted fit the slack; up to 86 sections always |
| `Layout.SynthOverBase` | elf_plan.hpp:58-121 | With 87 sections and the sizes of the default options, no imports and 103 relocations, it ends above the base |
| `Segments.LoadsCongruent` | elf_build.hpp:407-501 | Every PT_LOAD has p_offset congruent to p_vaddr modulo 0x1000 |
| `Segments.TargetsWritable` | elf_build.hpp:434-468 | Every relocation's eight target bytes lie in a writable PT_LOAD if and only if they are not in a section that `--strip-pdata` drops |
| `Segments.DroppedTarget` | elf_build.hpp:434-468 | A pointer in a dropped section keeps its relocation, to an address that no segment maps |
| `Witness.StrippedTarget` | elf_build.hpp:434-468 | There is such an image: a pointer in .pdata, converted with `--strip-pdata`, behind any headers of up to a page |
| `Segments.SegmentsHold` | elf_write.hpp:49-94 | Every program header's file range, the synthetic segment and PT_GNU_RELRO included, holds exactly the content built for it if and only if it is not the last one with SizeOfHeaders past the end of the input and no section headers after it |
| `Segments.HeaderRangeHolds` | elf_write.hpp:89-102 | The last PT_LOAD's range is in the file, holding the headers and then zeros, iff SizeOfHeaders is within the input or section headers are written |
| `Segments.HeaderRunsPast` | elf_build.hpp:490-501 | Every input with SizeOfHeaders past its end, converted without section headers, has a PT_LOAD that runs past the end of the file by the same amount |
| `Segments.SectionHeadersHold` | elf_build.hpp:514-582 | Every row of the section header table, .shstrtab included, holds the content built for it or is SHT_NOBITS, and the table is at e_shoff |
| `Segments.HeaderNames` | elf_build.hpp:507-536 | Each section header's name offset leads to its name |
| `Segments.SectionHeaderLinks` | elf_build.hpp:514-582 | Links lead from each table to the table its type asks for, and each PE section's header has the section's address, size and flags |
| `Assemble.PiecesOrdered` | elf_write.hpp:47-103 | For every image and options, the writer is never past an offset when it pads to it |
| `Assemble.PiecePlaced` | elf_write.hpp:47-103 | So every piece is in the file at its planned offset, whole |
| `Assemble.FirstRet` | elf_build.hpp:265-277 | The first 0xC3 byte, or that there is none |
| `Build.PhdrCount` | elf_plan.hpp:78-81 | The real number of program headers is within the space reserved |
| `Output.EmitPlaces` | util.hpp:57-83 | When no offset is passed early, padding and appending leaves each piece at its offset |
| `Output.EmitLength` | util.hpp:57-83 | The output ends where its last piece ends |
| `Output.OutBuf.PadToSize` | util.hpp:74-77 | Zeros up to the target; nothing if the buffer is already that long |
| `Output.OutBuf.Append` | util.hpp:62-65 | The bytes follow what was there |
| `FileReads.PhdrsRead` | elf_write.hpp:22-51 | A loader reads back exactly the program headers built, and takes the bias iff the file is ET_DYN |
| `TablesRead.DynamicRead` | elf_build.hpp:332-354 | The dynamic section found through PT_DYNAMIC in mapped memory is the one built |
| `TablesRead.RelasRead` | elf_build.hpp:166-203 | The relocations found through DT_RELA and DT_RELASZ are the ones built |
| `TablesRead.SymbolRead` | elf_build.hpp:153-164 | The name of symbol i found through DT_SYMTAB and DT_STRTAB is the i-th symbol name |
| `TablesRead.Tags` | elf_build.hpp:337-352 | The tags the loader needs have the planned addresses and sizes |
| `TablesRead.FixedTags` | elf_build.hpp:332-354 | Entry sizes are 24 and DT_FLAGS_1 asks for immediate binding |
| `TablesRead.LibrariesRead` | elf_build.hpp:332-354 | From the file's bytes, ld.so is told to load the shim and then the injected library, and to look in $ORIGIN |
| `Segments.InterpreterRead` | elf_build.hpp:395-406 | From the file's bytes, the kernel finds the interpreter that was asked for |
| `Segments.SegmentRights` | elf_build.hpp:434-468 | From the file's bytes, the segment that maps a byte of a section is executable iff SCN_EXECUTE is set, readable iff SCN_READ is, and writable iff SCN_WRITE is or the section holds a slot or a relocation |
| `Segments.RelroCovers` | elf_build.hpp:470-490 | A PT_GNU_RELRO covers every import slot, and there is one iff one kept section holds them all; the stack is not executable |
| `Segments.NestedHeaders` | elf_build.hpp:381-490 | The program headers themselves, the interpreter, the dynamic section and the RELRO range are each mapped by some PT_LOAD where their header says |
| `Mapping.SectionMapped` | elf_build.hpp:458-467 | A section's bytes are mapped at its address, then zeros, and no other segment's pages cover them |
| `Mapping.TableBytes` | elf_build.hpp:407-419 | The tables of the synthetic segment are mapped at their planned addresses |
| `Startup.TrampolineLoads` | elf_build.hpp:205-261 | Loaded, the trampoline's call slot holds shim_register_tls and its TLS record the directory, moved by the bias in a shared object |
| `Startup.JumpLands` | elf_build.hpp:279-330 | The encoded jump lands on the PE entry point |
| `Startup.TrampolineRuns` | elf_build.hpp:279-330 | Its five instructions, decoded from the loaded bytes and run from any stack, call shim_register_tls with the TLS record on a 16-byte boundary and then enter the PE entry point with the stack as after a call |
| `Entry.ConvertedStarts` | elf_write.hpp:34-36 | Every converted program starts so when entered where its file says: at e_entry, or with `--so` at what dlsym gives for `_entrypoint` |
| `Entry.RecordFollows` | elf_build.hpp:224-238 | The addresses in the TLS record move with the image iff it is a shared object, or there are none, or the bias is zero |
| `Entry.EntryFound` | elf_build.hpp:265-277 | The entry byte of a shared object is the first 0xC3 of the first executable section that has one |
| `Entry.SafeEntryReturns` | elf_build.hpp:265-277 | It is 0xC3 in memory, at every bias and however symbols resolve, iff its section is kept and no import slot or kept pointer covers it |
| `Witness.TrapPlan` | elf_build.hpp:265-277 | An image whose entry byte is in an import slot, and is not 0xC3 once loaded |
| `Entry.ConvertsIff` | elf_build.hpp:279-300 | A conversion goes through iff some signed 32-bit distance reaches the entry point and, with `--so`, an executable section has a 0xC3 |
| `ElfFormat.PhdrRoundTrip` | elf_types.hpp:24-33 | Writing a program header and reading it gives it back |
| `ElfFormat.RelaRoundTrip` | elf_types.hpp:54-58 | Likewise a relocation, with its symbol above its type |
| `ElfFormat.DynRoundTrip` | elf_types.hpp:59-65 | Likewise a dynamic entry |
| `ElfFormat.EhdrRead` | elf_types.hpp:8-23 | The file header read back gives the type and the program header table |
| `ElfFormat.EhdrRest` | elf_types.hpp:8-23 | And the identification, machine, entry point, sizes and section header table |
| `ElfFormat.SymRoundTrip` | elf_types.hpp:8-23 | A symbol read back is the one written |
| `FileReads.HeaderRead` | elf_write.hpp:22-46 | A loader accepts every written file; e_entry is the trampoline or, with `--so`, the byte chosen for it; with section headers kept, e_shoff, e_shnum and e_shstrndx lead to them |
| `Builder.Tables.BuildSyntheticSections` | elf_build.hpp:116-243 | The string, symbol, relocation and hash tables before addresses are known, and where the placeholders are |
| `Builder.Tables.FinalizeTlsCall` | elf_build.hpp:245-261 | Patching the placeholders gives the final relocations and symbols |
| `Builder.RelasFilled` | elf_build.hpp:245-261 | Setting offsets at the recorded positions, for every combination of absent TLS addresses, gives the final list |
| `Builder.Tables.BuildTrampoline` | elf_build.hpp:279-330 | Fails iff the jump does not fit 32 bits; otherwise the 80 bytes |
| `Builder.Tables.BuildDynamic` | elf_build.hpp:332-354 | The dynamic entries in order, as many as were planned |
| `Builder.Tables.PatchRdata` | elf_build.hpp:356-378 | A copy for each section with slots, equal to the section data with exactly its slots zeroed, for every input on which the 32-bit end test keeps the source inside its copy |
| `Builder.Tables.ZeroSlots` | elf_build.hpp:356-377 | One such copy |
| `Builder.Tables.BuildPhdrs` | elf_build.hpp:380-505 | The program headers, PT_GNU_RELRO included iff one kept section holds all slots |
| `Builder.Tables.BuildShdrs` | elf_build.hpp:507-582 | The section headers and their string table |
| `Builder.Tables.FindSafeEntry` | elf_build.hpp:265-277 | The first 0xC3 byte of the first executable section that has one, or 0 |
| `Builder.FindIatSections` | pe_image.hpp:386-391 | The sections that hold slots, in order of first use |
| `Converter.Write` | elf_write.hpp:21-103 | The appended and padded buffer is the planned file |
| `Converter.SectionFromInput` | elf_write.hpp:77-85 | Raw data from the input, zero-filled where the input ends, for every input on which the 32-bit test keeps the source inside it |
| `Converter.LastEnd` | pe2elf.cpp:84-87 | The fold over all ends is always the end of the headers |
| `Converter.Convert` | pe2elf.cpp:54-101 | A conversion fails iff the jump does not reach or a shared object has no byte to enter at; otherwise it gives the planned file, which a loader accepts and enters at the trampoline |
| `Converter.Run` | pe2elf.cpp:44-101 | The stages in order: relocations collected, rebased if asked, the TLS directory read from the result, converted |
| `EndToEnd.Converted` | pe2elf.cpp:27-101 | The bytes that a whole conversion returns load, at every bias, as the input image with the DIR64 sites of its relocation directory, and start as they should |
| `EndToEnd.ConvertedProgram` | pe2elf.cpp:27-101 | The same of the relocation blocks that the linker wrote: every address in them is relocated |
| `EndToEnd.ConvertedAt` | pe2elf.cpp:27-101 | With `--base`, they load as the input image at the new base exactly at the fine bytes, and start as they should |
| `Witness.SmallPlan` | elf_plan.hpp:48-133 | The assumptions of the load theorem hold of an image with a pointer and an import, behind any headers of up to a page and whatever its section is called |
| `Witness.CrowdedPlan` | elf_plan.hpp:58-121 | Behind any page of headers, an otherwise well-formed image of 87 sections whose plan has those sizes and ends above its base |
| `Qsort.Sort` | shim_msvcrt.hpp:503-555 | For any comparator that is a total preorder and n below 2^64: terminates in bounds, within 62 stack entries, and leaves a sorted permutation; untouched for n <= 1, size 0 or no comparator |
| `Qsort.CompareElems` | shim_msvcrt.hpp:499-501 | Its precondition, met at every call, is that the comparator never sees a position against itself |
| `Qsort.SwapElems` | shim_msvcrt.hpp:493-497 | The byte loop swaps two elements and nothing else |
| `Qsort.SelectionSort` | shim_msvcrt.hpp:515-524 | Sorts its range and permutes only it |
| `Qsort.MedianOfThree` | shim_msvcrt.hpp:526-529 | Orders first, middle and last |
| `Qsort.PartitionLoop` | shim_msvcrt.hpp:531-539 | The split scans never leave the range and divide it about the moving pivot |
| `Qsort.SkipEqual` | shim_msvcrt.hpp:541-543 | The skipped elements are equal to the pivot and higuy never underflows |
| `Qsort.Partition` | shim_msvcrt.hpp:526-543 | Only pairs within one of the two remaining ranges can still be out of order |
| `Qsort.SplitRange` | shim_msvcrt.hpp:526-551 | The larger side is pushed; order, halving and the termination measure are kept, with the unsigned comparison as written |
| `Qsort.ChooseCut` | shim_msvcrt.hpp:545-551 | Which part is pushed, by the unsigned comparison that wraps when loguy is one past hi |
| `Qsort.NextRange` | shim_msvcrt.hpp:512-554 | One pass through `recurse`: the stack holds exactly the pending ranges and the measure falls |
| `Qsort.StackRoom` | shim_msvcrt.hpp:506-551 | A range worth splitting is current with at most 60 entries stacked |
| `Qsort.CutSizes` | shim_msvcrt.hpp:545-551 | With k entries stacked, size times 2^k stays within n |
| `Qsort.CutOrdered` | shim_msvcrt.hpp:545-551 | Replacing a range by its two parts keeps every other pair in order |
| `Qsort.NothingPending` | shim_msvcrt.hpp:554 | With no range left, the whole array is sorted |
| `Utf.Utf8NextExact` | shim.cpp:606-624 | utf8_next accepts exactly the sequences of section 4 of RFC 3629 and gives their code point |
| `Utf.Utf8OfNext` | shim.cpp:606-624 | Decoding the encoding of any scalar value gives it and consumes just it |
| `Utf.Utf8Resumes` | shim.cpp:606-624 | On malformed text one U+FFFD stands for the lead byte and the continuation bytes after it, as many as it announces at most, and reading goes on after them |
| `Utf.Utf16NextExact` | shim_kernel32_string.hpp:84-89 | A unit or pair is accepted exactly when well-formed, as in section 2.2 of RFC 2781 |
| `Utf.OutputsWellFormed` | shim_kernel32_string.hpp:43-103 | On any input, both conversions give well-formed text |
| `Utf.Utf8RoundTrip` | shim_kernel32_string.hpp:43-103 | UTF-8 survives the round trip iff well-formed, and a second round trip changes nothing |
| `Utf.Utf16RoundTrip` | shim_kernel32_string.hpp:43-103 | Likewise UTF-16 |
| `Utf.WidenLength` | shim.cpp:626-647 | UTF-16 units never outnumber UTF-8 bytes |
| `UtfMethods.NextCodePoint` | shim.cpp:606-624 | The loop over continuation bytes computes the specified step |
| `UtfMethods.Utf8ToWchar` | shim.cpp:626-647 | Stores the longest prefix, cut between code points, that leaves room for the terminator |
| `UtfMethods.FitIsMost` | shim.cpp:633-644 | No longer prefix of code points fits |
| `UtfMethods.MultiByteToWideChar` | shim_kernel32_string.hpp:43-69 | The counting call gives the number a writing call stores; a writing call succeeds iff that fits, and strict calls iff the text is well-formed |
| `UtfMethods.WideCharToMultiByte` | shim_kernel32_string.hpp:71-103 | The same the other way |
| `UtfMethods.BuildWideEnvironment` | shim.cpp:839-853 | The wide block holds every entry whole and stays inside its allocation |
| `UtfMethods.EntryFits` | shim.cpp:848-852 | An entry given one unit per byte and one more is converted whole |
| `CmdLine.LineRoundTrip` | shim_kernel32_tail.hpp:182-208 | Splitting a printed line gives the arguments back iff the first is safe |
| `CmdLine.PlainLine` | shim_kernel32_tail.hpp:182-208 | Arguments without blanks or quotes, with any runs of spaces and tabs between and after them, are split at those |
| `CmdLine.BackslashRule` | shim_kernel32_tail.hpp:191-205 | Backslashes before a quote count in pairs, the odd one escapes it, and a doubled quote inside quotes is one |
| `CmdLine.ArgRoundTrip` | shim.cpp:796-815 | Any later argument, whatever its blanks, quotes and backslashes, parses back to itself and stops at the blank after it |
| `CmdLine.FirstRoundTrip` | shim.cpp:796-815 | The first argument survives iff safe |
| `CmdLineShim.CommandLineRoundTrip` | shim.cpp:788-819 | For every argument vector of bytes: quoted, converted and split, it gives the UTF-16 form of each argument iff argv[0] is safe |
| `CmdLineShim.BlockRoundTrip` | shim.cpp:784-819 | The same from the zero-separated block the kernel reports |
| `CmdLineShim.WidenEscape` | shim.cpp:802-815 | Conversion commutes with quoting, invalid bytes included |
| `CmdLineShim.CommandLineBuffers.Rebuild` | shim.cpp:776-820 | The narrow buffer holds the printed line or the override, cut to 32767 bytes; the wide buffer holds all of the narrow text |
| `CmdLineShim.CommandLineBuffers.PutText` | shim.cpp:801-809 | The character loop with its backslash count prints the escaped text |
| `ArgvBlock.CommandLineToArgvW` | shim_kernel32_tail.hpp:159-210 | The block's pointers and text hold exactly the specified arguments and the final null, for every line |
| `ArgvBlock.Fill` | shim_kernel32_tail.hpp:182-208 | At most len/2+2 arguments, and every write inside the len/2+3 pointers and 2·len+2 units |
| `ArgvBlock.TakeArgument` | shim_kernel32_tail.hpp:191-205 | One argument: its text, its terminator and where the rest starts |
| `ArgvBlock.TakeFirst` | shim_kernel32_tail.hpp:184-187 | The first argument by its own rule |
| `ArgvBlock.RoomForMore` | shim_kernel32_tail.hpp:174-181 | Whenever another argument starts, a pointer and its text units are left |
| `CmdLineRun.SplitOwnLine` | shim.cpp:776-820 | rebuild_cmdline, then CommandLineToArgvW on the buffer it left: for every safe argument vector whose line fits, the block holds the UTF-16 form of each argument and the null |
| `Paths.GetFullPath` | shim_kernel32_misc.hpp:126-157 | The in-place loop gives the stack fold of the components, or fails exactly where a component does not fit |
| `Paths.DotDotRemoves` | shim_kernel32_misc.hpp:140-142 | For every name c, x/c/../y is x/y from any directory |
| `Paths.DotDotCancels` | shim_kernel32_misc.hpp:140-142 | x/c/.. is x/. wherever they stand, with no exception for trailing separators |
| `Paths.DotDrops` | shim_kernel32_misc.hpp:137-151 | And x/. is x, unless that adds or drops a trailing separator |
| `Paths.RootHasNoParent` | shim_kernel32_misc.hpp:140-142 | /../y is /y |
| `Paths.SeparatorsMerge` | shim_kernel32_misc.hpp:137-151 | Two separators are one |
| `Paths.RelativePath` | shim_kernel32_misc.hpp:126-136 | A relative path is the current directory's spelling, a separator and the path |
| `Paths.BoundedFoldIsFold` | shim_kernel32_misc.hpp:137-151 | The bounded fold answers iff no component on the way is too long, and then as the unbounded one |
| `Paths.FullPathIdempotent` | shim_kernel32_misc.hpp:126-157 | The result is absolute, has no empty or dot components, and folds to itself from any directory |
| `Paths.FullPathStable` | shim_kernel32_misc.hpp:130-157 | Given its own answer through both translations, the bounded loop succeeds and gives the same answer, from any directory, for names without backslashes that fit |
| `Paths.BoundedFixed` | shim_kernel32_misc.hpp:137-155 | A folded path that fits is answered unchanged by the bounded loop |
| `Paths.TranslationsInvert` | shim.cpp:530-571 | The two translations undo each other on absolute paths without backslashes that fit |
| `Paths.Spellings` | shim.cpp:530-555 | With a drive letter, an extended or device prefix, or both in front, a path is the same, its backslashes slashes |
| `Paths.DriveC` | shim.cpp:561-571 | An absolute path is put on drive C, its slashes backslashes |
| `Paths.WinPathToPosix` | shim.cpp:530-555 | Prefix and drive stripped, separators swapped, cut to the buffer, root if empty; stays inside the size it is given iff that is not one |
| `Paths.PosixToWinPath` | shim.cpp:561-571 | Drive added to absolute paths, separators swapped, cut to the buffer; nothing for sizes below four |
| `Handles.RunsAreSafe` | shim_kernel32_sync.hpp:83-324 | In every interleaving: refcount equals table slots plus calls in flight, each object is destroyed at most once, nothing refers to a destroyed one, and no step touches one |
| `Handles.ExecInv` | shim_kernel32_sync.hpp:83-324 | Every enabled step keeps the invariant |
| `Handles.ExecObjInv` | shim_kernel32_file.hpp:79-110 | Every enabled step keeps the count of every object balanced |
| `Handles.TouchesLive` | shim_kernel32_sync.hpp:83-178 | Under the invariant no enabled step reads or writes a destroyed object |
| `Handles.NoWakeInvented` | shim_kernel32_sync.hpp:122-146 | In every interleaving: semaphore value is initial plus posts not lost at SEM_VALUE_MAX minus waits; an auto-reset event's waits plus its flag never exceed initial plus sets |
| `Signals.WaitSucceedsIff` | shim_kernel32_sync.hpp:83-178 | In every interleaving, a waiting thread can have the object iff its history says so: an event set since it was last turned off, more posts than waits, a mutex that no other thread holds |
| `Signals.NoWakeLost` | shim_kernel32_sync.hpp:222-230 | After a SetEvent and until a ResetEvent or, for auto-reset, a wait that succeeds, every waiting thread can have the event |
| `Signals.OneHolder` | shim_kernel32_sync.hpp:202-218 | In every interleaving no two threads hold a mutex |
| `Signals.CallDoes` | shim_kernel32_sync.hpp:249-324 | From retaining the object to letting it go, what a call has done and what it still has to do add up |
| `Signals.DoneGave` | shim_kernel32_sync.hpp:305-324 | A ReleaseSemaphore(n) that is done has posted n times, a SetEvent, ReleaseMutex or undo given once, a ResetEvent cleared once, a wait taken the object iff it says so |
| `FindNext.SafeIff` | shim_kernel32_file.hpp:439-453 | With the test, the read and the store as separate steps of any callers: from a state, every schedule without a further passing test reads only names of the context if and only if no call is past the test, or the greatest position there can be plus the calls past the test is within the names |
| `FindNext.SafeStep` | shim_kernel32_file.hpp:439-453 | Every step but a passing test keeps a state safe |
| `FindNext.SafeReads` | shim_kernel32_file.hpp:443-444 | In a safe state the name read is one of the context's |
| `FindNext.UnsafeOverruns` | shim_kernel32_file.hpp:443-453 | From every other state some schedule of reads and stores reads past the names |
| `FindNext.AtOnceIff` | shim_kernel32_file.hpp:439-453 | k calls about to test at position n, and no others: every schedule reads only names if and only if k <= 1, or n is at the end, or n + k is within the names |
| `FindNext.RunSafe` | shim_kernel32_file.hpp:439-453 | In a whole run in which each passing test leaves a safe state, every state is safe |
| `FindNext.SerialisedReadsInRange` | shim_kernel32_file.hpp:439-453 | So it is in every run in which no test passes while another call on the context is in flight |
| `FindNext.Overrun` | shim_kernel32_file.hpp:443-444 | A run of two callers on one find handle in which the second reads past the names |
| `Handles.UnrefKeeps` | shim_kernel32_sync.hpp:163-175 | Dropping a reference keeps the balance, and whoever reaches zero is the only one to destroy |
| `Handles.CloseSlotKeeps` | shim_kernel32_file.hpp:455-470 | Clearing a slot turns its reference into the closing call's |
| `WaitAll.Table.WaitAllRound` | shim_kernel32_thread.hpp:260-270 | A round succeeds iff every handle names an object that can be waited on as often as it is named; it then acquires each listed handle once; otherwise it leaves the whole state as it was and stops at the handle that could not be had |
| `WaitAll.Table.WaitNow` | shim_kernel32_sync.hpp:83-178 | A zero-timeout wait with no other thread stepping in takes the object iff it can be taken; the pseudo handle of the thread itself times out |
| `WaitAll.Table.UndoNow` | shim_kernel32_sync.hpp:461-494 | Gives back one acquisition |
| `WaitAll.Table.UndoInTurn` | shim_kernel32_thread.hpp:269 | Undoing the acquired handles in order restores the starting state |
| `WaitAll.Table.Close` | shim_kernel32_file.hpp:79-110 | Fails iff the slot is unused; frees any slot from 3 on, dropping the reference of a counted one; standard and pseudo handles change nothing |
| `WaitAll.Table.Alloc` | shim_kernel32_sync.hpp:18-31 | The first free slot from 3 on, or failure when there is none |
| `WaitAll.HandleIndexInverse` | shim.cpp:418-427 | Handles and indexes determine each other |
| `WaitAll.OneUndo` | shim_kernel32_sync.hpp:471-488 | One undo takes back one wait, for mutexes, semaphores and both kinds of event |
| `Veh.HandlerList.Add` | shim_kernel32_veh.hpp:22-43 | The entry goes to the chosen end of the list, and links stay consistent |
| `Veh.HandlerList.Remove` | shim_kernel32_veh.hpp:45-61 | Removes just that entry iff it is in the list |
| `Veh.HandlerList.WalkForward` | shim_kernel32_veh.hpp:50-52 | Following next visits the sequence |
| `Veh.HandlerList.WalkBackward` | shim_kernel32_veh.hpp:54-55 | Following prev visits its mirror image, entry by entry |
| `Veh.HandlerList.Dispatch` | shim_kernel32_veh.hpp:67-79 | Calls the first 32 handlers in order, up to and including the first that answers -1 |
| `Veh.CallsStopAtFirst` | shim_kernel32_veh.hpp:74-78 | Only the last handler called can have answered -1, and it did if any was left out |

## Left out

- Parsing the PE headers and walking the import directory: the model starts from the list of sections and imports; ordinal
  resolution and long section names are not part of it; the places of the relocation and TLS directories are parameters.
- PeImage.PeFile.CollectRelocs: a directory on which the source never stops has no result; files of 4 GiB and more, where
  the 32-bit entry offset itself would wrap, are not modelled.
- PeImage.PeFile.PatchSite: inputs on which the wrapped 32-bit test would let the source write outside the file have no
  defined result; `PeImage.KeptSites` shows that no collected relocation is one.
- Converter.SectionFromInput: likewise for a raw range whose 32-bit end wraps into the file, which the source would read
  past its end.
- Builder.Tables.PatchRdata: likewise for a slot whose 32-bit end wraps; every slot is in some section, as the import walk
  sees to.
- LoadEquiv.LoadsTheSame: does not cover a synthetic segment above the base, its fallback address included, or sections
  dropped by `--strip-pdata`; what ld.so does besides mapping and relocating (libraries, protection, RELRO) is not modelled.
- Rebase.PatchedIs: file windows of two pointers that overlap without coinciding are patched into each other and have no
  closed form; for them the condition of `Rebase.RebaseIsLoad` is stated on the patches themselves.
- `ElfLoader` reads tables as mapped, before relocation; none of the relocations touches them.
- Layout.ComputePlan: table sizes and addresses are unbounded; they would have to reach 2^64 to wrap.
- Writing the file to disk, options parsing and messages.
- Handles.RunsAreSafe: threads and their objects, DuplicateHandle, SuspendThread and file input/output are not steps of the
  model; a mutex closed while another thread owns it may be destroyed locked.
- WaitAll.Table.WaitAllRound: one round with no other thread stepping in; the polling loop around it and its clock are not
  modelled.
- Paths.GetFullPath: the current directory is taken to be a canonical absolute path; the narrow conversion before it and
  the copy to the caller's buffer after it are left out.
- ArgvBlock.CommandLineToArgvW: allocation never fails and the caller gives somewhere to put the count.
- Qsort.Sort: a comparator that is no total preorder, or that changes the array, is not covered.
- Veh.HandlerList.Dispatch: handlers that change the list while they run do not matter to it, since it works on a snapshot;
  freeing an entry is the collector's business.
- `wchar_to_utf8`, `split_cmdline`, the quoting in load.cpp, and the many thin API stubs: easier relatives of what is here.
