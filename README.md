# go-readelf, modelled in Dafny

go-readelf is a small `readelf` clone written in Go. It opens an ELF file and
checks the magic number and the class and byte-order bytes of `e_ident`. It
decodes the ELF header, then the section header table with its section names.
It can also load the `.dynsym` and `.symtab` symbol tables with their names,
the `SHT_REL` and `SHT_RELA` relocation sections, and the program header table.
Each relocation entry is then resolved against the symbol tables:
- its type mnemonic,
- the symbol's value,
- the symbol's name.

This project models that core as Dafny 4.11 code and proves properties of it.
- The file is an immutable `seq<byte>`.
- The `ELFFile` record of `main.go` is the class `ElfReader.ElfFile`. Its loaders are methods that update its fields.
- The `elf_File` record of the first version, `go-readelf.go`, is the class `GoReadelf.LegacyElfFile`.
- Every `panic`, `os.Exit(1)` or failed type assertion of the Go code becomes a `Faults.Error` value that the method returns. The fields it would have changed stay as they were.

Modules, in dependency order:

- `Wrappers`: `Option` and `Result`.
- `Bytes`: bytes and Go's unsigned integer types. Little- and big-endian integers with both round trips. uint16/uint32/uint64 wrap-around, `int64(x)` and two's-complement addends.
- `Layout`: the `debug/elf` record types as they appear in the file: `Header*`, `Section*`, `Sym*`, `Rel*`/`Rela*`, `Prog*`. Their native sizes and fixed byte offsets. The header decode/encode round trips.
- `Faults`: the ways the reader stops.
- `Ident`: `isElf`, and the class and byte order named by `e_ident`.
- `Reader`: the `io.SectionReader` window: a read through it succeeds only inside both the window and the file. Tables of fixed-size records.
- `StrTab`: string-table lookup, `getSectionName` and `getSymbolName`.
- `Tables`: what each loader reads, as functions of the file's bytes, with the window lengths the Go code computes. This covers:
  - the uint16 product `Shentsize * Shnum`;
  - `int64(off)`;
  - the `off + size` end offset used as a window length;
  - the truncating record counts;
  - symbol maps keyed by index and name maps keyed by `st_name`.
- `Relocs`: `R_SYM`/`R_TYPE`/`R_INFO` for both classes, `resolveRelocType`, and the resolution of one relocation entry as `printRelocations` does it.
- `SectionFlags`: `flagToKey`.
- `ElfReader`: the `ELFFile` class with `setArch`, `mapHeader`, `getSections`, `getSectionNdx`, `getSectionByType`, `loadSymbols`, `getSymbols`, `getRelocations`, the per-section entry resolution of `printRelocations`, and the decoding part of `getProgHeaders`.
- `GoReadelf`: `is_elf`, `SetArch`, `MapHeader` and `GetSections` of `go-readelf.go`. Its name loop, written inline, is proved to give the same names as `getSectionName`.

Points where the code behaves in ways a reader may not expect. The model keeps each one:

- A section or symbol name offset past the end of its string table is not the empty string. The slice `t[sIndex:end]` panics and the model returns `NameOffsetOutOfRange`. An offset equal to the table length gives the empty string.
- A symbol or relocation section whose size is not a whole number of records is not an error. The count `size / recordSize` truncates.
- An unknown `EI_DATA` byte only prints a warning in `mapHeader`. `binary.Read` is then handed a nil `ByteOrder` and panics on the first multi-byte field. `MapHeader` reports both, the warning as `warned` and the panic as `NilByteOrder`.
- `SymbolsName`/`DynSymbolsName` are keyed by the raw `st_name` offset, not by symbol index. Symbols that share a name offset share one entry. The model keeps this (`Tables.NameMap`).
- The section and program header tables are read through a window of `Shentsize * Shnum` (resp. `Phnum * Phentsize`) bytes computed as uint16. The product wraps instead of covering the declared table.
- A relocation naming a symbol index that its symbol map lacks is an error (`MissingSymbol`): the type assertion on the missing map value panics.
- The program header listing on a 32-bit file stops at the type assertion on the first line of `getProgHeaders` (see Findings).

## Model

| member | source | states |
|---|---|---|
| `Ident.IsElf` | main.go:924-926 | true exactly when the first four bytes are 0x7f 'E' 'L' 'F' |
| `GoReadelf.IsElfLegacy` | go-readelf.go:257-259 | the same test; it accepts exactly what `isElf` accepts |
| `Ident.ClassOf` | main.go:15-26 | byte 2 names the 64-bit class, byte 1 the 32-bit class, every other byte none |
| `Ident.OrderOf` | main.go:31-38 | byte 1 names little-endian, byte 2 big-endian, every other byte none |
| `Ident.IdentOf` | main.go:836 | the 16 identification bytes are the file's first 16, zero-filled when the file is shorter |
| `ElfReader.ElfFile.Open` | main.go:829-836 | a fresh record on the file: identification read, nothing else set, invariant established |
| `ElfReader.ElfFile.SetArch` | main.go:14-27 | succeeds iff the class byte is 1 or 2, then records that class with an undecoded header; otherwise `InvalidClass` and nothing changes |
| `ElfReader.ElfFile.MapHeader` | main.go:29-50 | warns iff the data byte is neither 1 nor 2 and then keeps the old byte order; fails on a file shorter than the header or with no byte order; otherwise the header is the decoding of the file's first header-size bytes, its ident is the file's, and the machine is its `e_machine` |
| `GoReadelf.LegacyElfFile.Open` | go-readelf.go:226-230 | a fresh record on the file, identification read |
| `GoReadelf.LegacyElfFile.SetArch` | go-readelf.go:60-73 | as `setArch`: exit on any class byte other than 1 or 2 |
| `GoReadelf.LegacyElfFile.MapHeader` | go-readelf.go:75-89 | as `mapHeader` without the machine: warning, byte order, and the decoded header or the failing read |
| `Bytes.DecodeEncode` | main.go:40-42 | an n-byte integer read back in the order it was written gives the value back, in both byte orders |
| `Bytes.EncodeDecode` | main.go:40-42 | writing back a value read from bytes gives the bytes back, in both byte orders |
| `Bytes.UIntBound` | main.go:40-42 | a value read from n bytes is below 256^n |
| `Bytes.BeIsReversedLe` | main.go:31-36 | big-endian is little-endian of the reversed bytes |
| `Bytes.ToInt64` | main.go:65 | `int64(x)` of a uint64 is x below 2^63 and negative from 2^63 on |
| `Bytes.SignedRoundTrip` | main.go:477 | the signed `r_addend` reinterpretation loses no bits |
| `Layout.DecodeHeader` | main.go:40-42 | the decoded header's ident is the first 16 bytes |
| `Layout.HeaderDecodeEncode` | main.go:40-42 | decoding an encoded header whose fields fit their widths gives the header back |
| `Layout.HeaderEncodeDecode` | main.go:40-42 | re-encoding the header decoded from header-size bytes gives those bytes back |
| `Layout.DecodeEncodeFields` | main.go:40-42 | reading a run of fixed-width fields back gives the values written |
| `Layout.EncodeDecodeFields` | main.go:40-42 | writing back a run of fields read gives the bytes |
| `Layout.DecodeFieldsFit` | main.go:40-42 | every field read from its width's bytes fits that width |
| `Layout.DecodeFieldsPrefix` | main.go:342-344 | fields that end within the first n bytes are read the same from those n bytes |
| `Layout.FieldIsUInt` | main.go:40-42 | a fixed-offset field is the unsigned integer its bytes hold in the file's order |
| `Layout.DecodeReloc` | main.go:363-376 | a 32-bit entry's `r_info` fits in 32 bits |
| `Layout.DecodeSection` | main.go:65-66 | `binary.Read` of one `Section32`/`Section64`: the fields of `SectionLayout` decoded in file order (definition; its partners are `SectionDecodeEncode`, `SectionEncodeDecode` and `FieldIsUInt`) |
| `Layout.SectionDecodeEncode` | main.go:65-66 | decoding an encoded section header whose fields fit their class's widths gives it back |
| `Layout.SectionEncodeDecode` | main.go:65-66 | a section header decoded from native-size bytes fits its class's widths, and re-encoding it gives those bytes back |
| `Layout.DecodeSymbol` | main.go:160-165 | `binary.Read` of one `Sym32`/`Sym64`, the two classes ordering their fields differently (definition; its partners are `SymbolDecodeEncode`, `SymbolEncodeDecode` and `Reader.SymbolNameAt`) |
| `Layout.SymbolDecodeEncode` | main.go:160-165 | decoding an encoded symbol whose fields fit their class's widths gives it back |
| `Layout.SymbolEncodeDecode` | main.go:160-165 | a symbol decoded from native-size bytes fits its class's widths, and re-encoding it gives those bytes back |
| `Layout.DecodeProg` | main.go:343-344 | `binary.Read` of one `Prog32`/`Prog64`, with `p_flags` at offset 24 in `Prog32` and 4 in `Prog64` (definition; its partners are `ProgDecodeEncode`, `ProgEncodeDecode` and `DecodeProgPrefix`) |
| `Layout.ProgDecodeEncode` | main.go:343-344 | decoding an encoded program header whose fields fit their class's widths gives it back |
| `Layout.ProgEncodeDecode` | main.go:343-344 | a program header decoded from native-size bytes fits its class's widths, and re-encoding it gives those bytes back |
| `Layout.DecodeProgPrefix` | main.go:342-344 | `binary.Read` of a `Phentsize`-long slice depends only on its first native-size bytes |
| `Reader.Readable` | main.go:65-66 | definition of the `io.SectionReader` window: a read succeeds iff it is empty or lies inside both the window and the file, with a negative start failing; its consequences are `ReadableSplit` and the `*ReadableIff` lemmas |
| `Reader.ReadableSplit` | main.go:160-163 | a read of two consecutive runs succeeds iff each does, as `binary.Read` reads record after record through one reader |
| `Reader.SectionTable` | main.go:65-66 | `binary.Read` into `Shnum` sections yields exactly `Shnum` records (definition: record k is decoded from byte `at + k * size`) |
| `Tables.Start` | main.go:65 | `int64(off)` is the offset itself when it is below 2^63 or from a 32-bit section; a 64-bit offset gives a negative start iff it reaches 2^63 |
| `Tables.EndLimit` | main.go:73 | the window length `int64(off + size)`: below 2^32 for 32-bit sections, equal to `off + size` when the sum does not wrap, and never above it |
| `Tables.SectionsOf` | main.go:58-66 | the section table holds `Shnum` entries |
| `Tables.LoadSections` | main.go:57-107 | on success: `Shnum` sections, `Shstrndx` in range, every name offset inside the name table, and the name table is the file's bytes `[off, off + size)` of section `Shstrndx` (the failure side is `LoadSectionsFails`) |
| `Tables.LoadSectionsFails` | main.go:65-75 | the first failing check decides the error: an unreadable table is `TruncatedRead`, `Shstrndx` past the table `IndexOutOfRange`, an unreadable name table `TruncatedRead`; after those the load succeeds iff every `sh_name` lies inside the name table, and otherwise fails with `NameOffsetOutOfRange` (main.go:258) |
| `Tables.TableOutsideFails` | main.go:59-67 | a non-empty native table without uint16 wrap that runs past the end of the file fails with `TruncatedRead` |
| `Tables.WellFormedLoads` | main.go:57-107 | when the section table and the name table lie inside the file and `Shstrndx` is an index of the table, the load succeeds iff every `sh_name` lies inside the name table |
| `Tables.TableReadableIff` | main.go:59-65 | with native entries and no wrap, the table is read iff it lies inside the file |
| `Tables.WrappedTableUnreadable` | main.go:59-65 | 1024 native 64-bit entries wrap the uint16 window to 0 and the read fails |
| `Tables.StrTabReadableIff` | main.go:68-75 | with a file below 4 GiB, a string table is read iff it lies inside the file |
| `Tables.SectionBytes` | main.go:68-75 | the bytes read for a string table are `size` bytes, no more than the file holds (definition: they are the file's bytes from `off`; `LoadSections` states this for the name table) |
| `ElfReader.ElfFile.GetSections` | main.go:57-107 | the sections are the loaded table and section i is named `StringAt(shstrtab, sh_name)`, or the load's error with nothing changed |
| `StrTab.NulEnd` | main.go:249-255 | the first NUL at or after k, or the table's end, with no NUL before it |
| `StrTab.StringAt` | main.go:248-260 | the name is the NUL-free run at the offset, stopped by a NUL or the end of the table |
| `StrTab.NulEndUnique` | main.go:249-255 | the loop's stopping point is the only index with the two defining properties |
| `StrTab.StringAtSuffix` | main.go:248-260 | looking up from inside a name gives the rest of that name |
| `StrTab.GetSectionName` | main.go:248-260 | the scan returns `StringAt(t, sIndex)` |
| `StrTab.GetSymbolName` | main.go:234-236 | the same lookup as `getSectionName` |
| `GoReadelf.SectionNames` | go-readelf.go:126-138 | the inline scan gives section i the name `StringAt(table, sh_name)`, the name `getSectionName` returns |
| `GoReadelf.LegacyElfFile.GetSections` | go-readelf.go:102-176 | the same table and names as `getSections`, or the same error with nothing changed |
| `ElfReader.FirstIndex` | main.go:238-246 | the first index holding the name, with no earlier one; 0 when the name is absent |
| `ElfReader.ElfFile.SectionNdx` | main.go:238-246 | the scan returns `FirstIndex(sectionNames, name)` |
| `ElfReader.ElfFile.SectionByType` | main.go:262-283 | exactly the indices of sections of the type, each once, in increasing order |
| `Tables.SymCount` | main.go:138-140 | `numSymbols` is the number of whole records in the section |
| `Tables.FirstSymbolError` | main.go:160-166 | no error iff every symbol can be read and names a string inside the table; an error is a failed read or a bad name offset |
| `Tables.SymbolMap` | main.go:160-164 | after n rounds the map's keys are exactly 0..n-1 |
| `Tables.SymbolMapAt` | main.go:160-164 | key k of the map holds symbol k, decoded at `off + k * recordSize` |
| `Tables.SymbolIndexFits` | main.go:160 | a symbol that can be read has a uint32 index |
| `Tables.SymbolMapNext` | main.go:160-164 | one more round adds symbol n under key n |
| `Tables.FirstSymbolErrorNext` | main.go:160-166 | a symbol that can be read and whose `st_name` lies inside the string table is not the first failure |
| `Reader.SymbolNameAt` | main.go:160-165 | the `st_name` read on its own is the decoded symbol's name, in both classes |
| `Tables.NameKeys` | main.go:165 | the name keys are exactly the `st_name` values of the stored symbols |
| `Tables.NameMap` | main.go:165 | the name map's keys are the `st_name` values, each mapped to its `StringAt` |
| `Tables.NameMapInsert` | main.go:165 | storing a symbol sets the name under its `st_name` and keeps the other names |
| `Tables.LoadSymbolTable` | main.go:144-166 | an unreadable string table is `TruncatedRead`; otherwise error iff some record fails; on success keys are 0..numSymbols-1 and names are keyed by `st_name` |
| `Tables.SymbolTableOf` | main.go:154-166 | error iff some symbol fails; on success keys are 0..numSymbols-1 and names are keyed by `st_name` |
| `Tables.SymbolTableEntries` | main.go:154-166 | on success every key k holds symbol k, readable and decoded at `off + k * recordSize` |
| `ElfReader.ReadSymbols` | main.go:154-166 | the loop's maps or error equal `SymbolTableOf` |
| `ElfReader.SymbolsReadNext` | main.go:160-166 | storing readable symbol k, whose `st_name` lies inside the table, and its name extends the loop's state from k symbols to k + 1 |
| `ElfReader.SymbolsReadFails` | main.go:160-166 | an unreadable symbol makes the table `TruncatedRead`; a readable one whose `st_name` lies past the string table makes it `NameOffsetOutOfRange` |
| `ElfReader.SymbolsReadAll` | main.go:154-166 | after all `numSymbols` rounds the maps are the table `SymbolTableOf` gives |
| `ElfReader.SymbolTableAt` | main.go:139-146 | an index past the section table is `IndexOutOfRange` |
| `ElfReader.LinkedLoad` | main.go:110-131 | nothing is loaded iff the table name is absent or is the name of section 0 (index 0 reads as not found); a missing string table reads from section 0 |
| `ElfReader.ElfFile.LoadSymbols` | main.go:134-232 | the chosen kind's maps become the loaded table, the other kind's are untouched, or the error with nothing changed |
| `ElfReader.ElfFile.LoadLinked` | main.go:110-131 | one block of `getSymbols`: nothing changes when the table is not found; otherwise the load's error, or its table in the maps of the kind; the other kind's maps stay as they were |
| `ElfReader.ElfFile.GetSymbols` | main.go:109-132 | `.dynsym`/`.dynstr` first, then `.symtab`/`.strtab`, each only when found; the first failure stops and is reported; each kind's maps are the loaded table when its load ran and succeeded, and unchanged otherwise |
| `Tables.RelCount` | main.go:365 | `numRels` is the number of whole records in the section |
| `Tables.RelTableOf` | main.go:357-406 | a relocation section yields `numRels` entries of its kind; 32-bit `r_info` fits 32 bits |
| `Tables.RelReadableIff` | main.go:364-400 | with a file below 4 GiB a relocation section is read iff its records lie in the file |
| `ElfReader.ElfFile.GetRelocations` | main.go:357-406 | success iff every `SHT_REL`/`SHT_RELA` section can be read; then `Rels` holds exactly those indices with their entries |
| `Relocs.RInfo32` | main.go:447-449 | `ELF32_R_INFO(sym, t)` keeps sym in the upper 24 bits and t in the low 8 |
| `Relocs.RSym64` | main.go:522 | `R_SYM64` is the upper 32 bits: `s * 2^32 <= info < (s + 1) * 2^32` |
| `Relocs.RType64` | main.go:521 | `R_TYPE64` is r_info modulo 2^32 |
| `Relocs.RInfo` | main.go:449 | `R_INFO(sym, t)` has sym as its upper 32 bits and t as its lower 32 bits |
| `Relocs.SplitInfo` | main.go:447-449 | the class's split of `r_info` is inverted by that class's packing: `ELF32_R_INFO` for 32-bit (sym below 2^24, type below 256), `R_INFO` for 64-bit |
| `Relocs.RSym32` | main.go:448 | `R_SYM32` is below 2^24 |
| `Relocs.RType32` | main.go:447 | `R_TYPE32` is below 256 |
| `Relocs.Info32RoundTrip` | main.go:447-449 | `ELF32_R_INFO(R_SYM32(i), R_TYPE32(i)) == i` |
| `Relocs.Split32RoundTrip` | main.go:447-449 | splitting a packed 32-bit `r_info` gives its symbol and type back |
| `Relocs.Info64RoundTrip` | main.go:521-523 | the displayed `R_INFO(R_SYM64(i), R_TYPE64(i))` is i |
| `Relocs.Split64RoundTrip` | main.go:521-523 | splitting `R_INFO(sym, t)` gives sym and t back |
| `Relocs.Displayed32` | main.go:447-449 | a 32-bit entry's displayed info equals its `r_info` iff its symbol index is 0 |
| `Relocs.Displayed32Example` | main.go:447-449 | 32-bit `r_info` 0x101 is displayed as 0x100000001 |
| `Relocs.ResolveRelocType` | main.go:408-433 | a mnemonic always carries the type numeral it was given |
| `Relocs.ResolveRelocTypeTable` | main.go:408-433 | the ten machines get their own enumeration with the type numeral unchanged; every other machine gets `R_UNKNOWN` |
| `Relocs.LinkedTable` | main.go:457-468 | `sh_link` naming `.dynsym` picks the dynamic maps, `.symtab` the static ones, anything else exits, an index past the names panics |
| `Relocs.ResolveEntry` | main.go:445-585 | a failure is one of `IndexOutOfRange`, `UnresolvableSymbolTable`, `MissingSymbol`; a line has the entry's offset and, exactly for RELA, its addend |
| `Relocs.ResolveEntryOk` | main.go:445-585 | an entry resolves iff the linked table holds its symbol; then the line has its offset, the displayed `R_INFO(sym, type)`, the mnemonic, the symbol's value, and exactly its name from the name map (`""` when `st_name` is not a key), followed by " + " for a RELA entry on a defined symbol, and the addend exactly for RELA |
| `Relocs.ResolveEntryInfo32` | main.go:447-449 | a 32-bit line shows `R_INFO(R_SYM32(i), R_TYPE32(i))`, which is i iff the symbol index is 0 |
| `Relocs.ResolveEntryInfo64` | main.go:519-523 | a 64-bit line shows `r_info` unchanged |
| `Relocs.ResolveEntryNoAliasing` | main.go:457-468 | the result depends only on the linked table, never on the other |
| `Relocs.RelaNameSuffix` | main.go:472-504 | a RELA line is the REL line with " + " after a defined symbol's name and the addend |
| `Relocs.ResolveFooExample` | main.go:546-580 | a RELA entry for `foo` in `.dynsym` on x86-64 resolves to `foo + ` with its value 0x1000 |
| `Relocs.ResolveUnlinkedExample` | main.go:465-467 | a section linked to neither symbol table gives `UnresolvableSymbolTable` |
| `ElfReader.ElfFile.ResolveSection` | main.go:435-585 | the section's lines are the resolutions of its entries in order, up to and reporting the first failure; an index past the names panics |
| `ElfReader.Slices` | main.go:341-348 | at most `Phnum` records, all `Phnum` on completion |
| `ElfReader.SlicesSized` | main.go:341-348 | each record cut by the loop has the native program header size |
| `ElfReader.SlicesEnd` | main.go:341-348 | the loop ends complete, on a `Phentsize` below the native size, or on a slice past the end of the buffer |
| `ElfReader.ProgTableOf` | main.go:322-352 | `SeekFailed` iff `int64(Phoff)` is negative; `ShortRead` iff the wrapped buffer runs past the file; otherwise the slicing loop, with at most `Phnum` native-size records |
| `ElfReader.ProgHeadersAsWritten` | main.go:285-355 | a 32-bit file gives no entries and the `NotHeader64` panic; a 64-bit file gives the 64-bit listing |
| `ElfReader.SlicesFull` | main.go:341-348 | a buffer holding the slices lists them all, record j from byte j * `Phentsize` |
| `ElfReader.SlicesComplete` | main.go:341-348 | a buffer with room for count whole slices of at least the native size runs the loop to the end |
| `ElfReader.SlicesAt` | main.go:341-348 | in that case record j is the native-size slice that starts j strides of `Phentsize` after the first |
| `ElfReader.SlicesAfterIs` | main.go:341-348 | the loop resumed with records already cut ends with those records followed by what `Slices` cuts from there, and with the same end |
| `ElfReader.ProgTableComplete` | main.go:322-352 | a table inside the file with native entries and no wrap is listed in full, record i from byte `Phoff + i * Phentsize` |
| `ElfReader.ProgTableWrapped` | main.go:328 | 1171 64-bit entries wrap the buffer to 40 bytes and the first slice panics |
| `ElfReader.ProgHeaders32Crash` | main.go:285-295 | on a 32-bit file the listing stops at the assertion, though its 32-bit branch would list every entry |
| `ElfReader.DecodeNext` | main.go:343-344 | decoding one more record appends its entry |
| `ElfReader.DecodeSlices` | main.go:341-348 | the loop's end and entries are `Slices`' end and the decoding of its records |
| `ElfReader.ReadProgTable` | main.go:322-352 | seek, read and loop give `ProgTableOf`'s end and its decoded records |
| `ElfReader.ElfFile.ProgHeaders` | main.go:285-355 | the listing of `getProgHeaders` as written |
| `ElfReader.ElfFile.ProgHeadersByClass` | main.go:290-353 | the listing taken through the file's own class branch |
| `SectionFlags.ContainsFrom` | main.go:721 | true iff the name occurs at or after position i |
| `SectionFlags.Contains` | main.go:721 | `strings.Contains` is true iff the name occurs somewhere |
| `SectionFlags.KeyPos` | main.go:720-773 | a key letter's position in the table |
| `SectionFlags.KeyPosOf` | main.go:720-773 | the thirteen letters are distinct |
| `SectionFlags.AddKey` | main.go:721-723 | one test appends its letter iff its name occurs |
| `SectionFlags.FlagToKey` | main.go:720-773 | the key is the thirteen tests done in order |
| `SectionFlags.KeysUpToHas` | main.go:720-773 | after n tests, a letter is in the key iff its test came among them and its name occurs |
| `SectionFlags.KeysUpToOrdered` | main.go:720-773 | after n tests, every key letter belongs to one of them, in test order |
| `SectionFlags.FlagKeyMeaning` | main.go:720-773 | each letter is present iff its flag name occurs, no other character appears, and the letters keep the order W A X M S I L O G T C o P |

## Left out

- Printing is not modelled: `printHeader`, `printSections`, `printSymbols`, the text of `printRelocations` and `getProgHeaders`, `Header`, `print_header` and `print_sections`. `main` and `usage` are out too. The loaders' results are modelled; their formatting is not.
- `Relocs.ResolveRelocTypeTable`: the mnemonic is the `debug/elf` enumeration plus the type numeral. The `String()` text Go formats from them is not modelled.
- Segment flags are not modelled: the `elf.ProgFlag(...).String()` text in `getProgHeaders`.
- `FindSectionByName` in `go-readelf.go` has an empty body and is not modelled.
- `ElfReader.ElfFile.Open` and `GoReadelf.LegacyElfFile.Open` require a file below 4 GiB, so the uint32 index arithmetic never wraps. Larger files are not modelled.
- `ElfReader.ElfFile.LoadSymbols`: in Go, the map entry for symbol k is created before its `binary.Read`, and a failed read panics. The model reports the error and leaves the maps as they were. The state after a panic is not modelled.
- `ElfReader.ElfFile.GetSections` and `GoReadelf.LegacyElfFile.GetSections` check every name offset before writing a name. Go panics at the first bad offset after writing the earlier names. As above, the state after a panic is not modelled.
- `ElfReader.ElfFile.GetRelocations`: Go replaces `Rels` with a fresh map and stores each section's entries before its `binary.Read`, then panics at the first failed read. The model reports the error and leaves `Rels` as it was. The state after a panic is not modelled.
- `Reader.Readable`: a negative window length, such as `int64(off + size)` for a 64-bit symbol or relocation section whose end reaches 2^63, is an empty window, so every non-empty read fails. Go releases whose `io.NewSectionReader` guards the `off + n` overflow instead open an unbounded window for a negative n. Then the symbol reads run to the end of the file and can stop on a bad `st_name` instead. Either way the program panics, but the error reported can differ, and the unbounded window is not modelled.
- `ElfReader.ElfFile.ResolveSection`: `printRelocations` walks `Rels` in Go's unspecified map order and can exit part-way through. The model resolves one section at a time. The order across sections is not modelled.
- `ElfReader.DecodeSlices`: entries are specified as the decoding of the first native-size bytes of each slice (`DecodedFrom`). `Layout.DecodeProgPrefix` shows that the bytes after them do not matter.
- `make([]byte, size)` can run out of memory on a huge declared size. Allocation failure is not modelled.
- The `Fh`, `err`, `ElfSymbols` and `Size` fields of `ELFFile` are not modelled: no loader reads them.
- Opening the file, `Seek` on the handle and the one-shot `Fh.Read` of the identification are not modelled as I/O. The file is a byte sequence. A seek to a negative offset is the `SeekFailed` end of the program header listing.
- `GoReadelf.SectionNames`: `go-readelf.go` copies each name through a `bytes.Buffer` with `Write`, `String` and `Reset`. The model assigns the bytes' string directly. The result is the same; the buffer is not modelled.
- There is no concurrency, clock or randomness in the core.

## Findings

| source | as written | input that shows it | evidently intended | confidence | as-written member | corrected member |
|---|---|---|---|---|---|---|
| main.go:286 | the first statement asserts `elfFs.Hdr.(*elf.Header64)` to print `Phnum`, so a 32-bit file panics before the `ELFCLASS32` branch (main.go:291-321) runs | a 32-bit file with one 32-byte program header inside the file (`ElfReader.ProgHeaders32Crash`) | read `Phnum` from the header of the file's own class, so that the 32-bit branch lists the entries | not executed | `ElfReader.ElfFile.ProgHeaders` | `ElfReader.ElfFile.ProgHeadersByClass` |
