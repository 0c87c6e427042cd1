/** The ways the reader stops. Go's checkError panics on every I/O error,
    setArch and printRelocations call os.Exit(1), and an index, a slice or a
    type assertion that goes wrong panics; the model returns one of these
    instead. */
module Faults {

  datatype Error =
    /** e_ident[EI_CLASS] is neither ELFCLASS32 nor ELFCLASS64 (os.Exit). */
    | InvalidClass
    /** binary.Read or io.ReadFull ran out of bytes (file or window). */
    | TruncatedRead
    /** binary.Read was handed the nil ByteOrder left by an unknown EI_DATA. */
    | NilByteOrder
    /** An index into a Go slice was out of range (e_shstrndx, sh_link). */
    | IndexOutOfRange
    /** A name offset lies past the end of its string table (slice bounds). */
    | NameOffsetOutOfRange
    /** A relocation names a symbol its symbol table map does not hold: the
        type assertion on the nil map value panics. */
    | MissingSymbol
    /** A relocation section links to neither .dynsym nor .symtab (os.Exit). */
    | UnresolvableSymbolTable
    /** getProgHeaders asserts the header is an *elf.Header64. */
    | NotHeader64
    /** A program header slice reaches past the end of the read buffer. */
    | SegmentSliceOutOfRange
}
