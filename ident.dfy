/** ELF identification ("ELF Identification" in chapter 4 of the System V
    ABI): the magic number in e_ident[0..4], the word class in
    e_ident[EI_CLASS] and the byte order in e_ident[EI_DATA]. */
module Ident {
  import opened Bytes
  import opened Layout
  import opened Wrappers

  const EI_CLASS: nat := 4
  const EI_DATA: nat := 5

  const ELFCLASS32: byte := 1
  const ELFCLASS64: byte := 2

  const ELFDATA2LSB: byte := 1
  const ELFDATA2MSB: byte := 2

  /** ELFMAG: 0x7f 'E' 'L' 'F'. */
  const ELFMAG: seq<byte> := [0x7f, 0x45, 0x4c, 0x46]

  /** isElf: the first four bytes are the ELF magic number. */
  function IsElf(magic: seq<byte>): (r: bool)
    requires |magic| >= 4
    ensures r <==> magic[..4] == ELFMAG
  {
    !(magic[0] != 0x7f || magic[1] != 'E' as int || magic[2] != 'L' as int || magic[3] != 'F' as int)
  }

  /** The word class that e_ident[EI_CLASS] names, if any. */
  function ClassOf(b: byte): (c: Option<Class>)
    ensures c == Some(Class64) <==> b == ELFCLASS64
    ensures c == Some(Class32) <==> b == ELFCLASS32
    ensures c == None <==> b != ELFCLASS32 && b != ELFCLASS64
  {
    if b == ELFCLASS64 then Some(Class64)
    else if b == ELFCLASS32 then Some(Class32)
    else None
  }

  /** The byte order that e_ident[EI_DATA] names, if any. */
  function OrderOf(b: byte): (o: Option<ByteOrder>)
    ensures o == Some(LittleEndian) <==> b == ELFDATA2LSB
    ensures o == Some(BigEndian) <==> b == ELFDATA2MSB
    ensures o == None <==> b != ELFDATA2LSB && b != ELFDATA2MSB
  {
    if b == ELFDATA2LSB then Some(LittleEndian)
    else if b == ELFDATA2MSB then Some(BigEndian)
    else None
  }

  /** The identification bytes main reads with Fh.Read(Ident[:16]): the first
      16 bytes of the file, zero-filled when the file is shorter. */
  function IdentOf(file: seq<byte>): (id: seq<byte>)
    ensures |id| == IDENT_SIZE
    ensures forall i :: 0 <= i < IDENT_SIZE ==> id[i] == if i < |file| then file[i] else 0
  {
    if |file| >= IDENT_SIZE then file[..IDENT_SIZE]
    else file + seq(IDENT_SIZE - |file|, _ => 0)
  }
}
