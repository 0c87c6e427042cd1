/** Reads from the open file, which is an immutable byte sequence here.
    encoding/binary and io.ReadFull either fill the whole destination or
    fail, and an io.SectionReader(file, start, limit) exposes only the bytes
    [start, start + limit) of the file; both are stated once, here. */
module Reader {
  import opened Bytes
  import opened Layout

  /** Reading len bytes at relative position pos through a section reader
      that starts at byte start of data and is limit bytes long succeeds
      iff nothing is asked for, or the bytes lie inside both the window and
      the file (a negative start makes ReadAt fail). */
  predicate Readable(data: seq<byte>, start: int, limit: int, pos: nat, len: nat)
  {
    len == 0 || (0 <= start && pos + len <= limit && start + pos + len <= |data|)
  }

  /** A read of len1 + len2 bytes succeeds exactly when a read of len1
      bytes and the read of len2 bytes that follows it both do. */
  lemma ReadableSplit(data: seq<byte>, start: int, limit: int, pos: nat, len1: nat, len2: nat)
    requires len1 > 0 && len2 > 0
    ensures Readable(data, start, limit, pos, len1 + len2) <==>
            Readable(data, start, limit, pos, len1) && Readable(data, start, limit, pos + len1, len2)
  {
  }

  /** Record k of a table of records of size bytes stored from byte at. */
  function Slot(data: seq<byte>, at: nat, k: nat, size: nat): (r: seq<byte>)
    requires at + k * size + size <= |data|
    ensures |r| == size
  {
    data[at + k * size .. at + k * size + size]
  }

  lemma SlotInTable(at: nat, k: nat, count: nat, size: nat)
    requires k < count
    ensures at + k * size + size <= at + count * size
  {
    var rest := count - k - 1;
    assert count * size == k * size + size + rest * size;
  }

  /** A table of count records fits in the file from byte at. */
  predicate TableFits(data: seq<byte>, at: nat, count: nat, size: nat)
  {
    count == 0 || at + count * size <= |data|
  }

  /** The section header table: count records at native stride from byte at. */
  function SectionTable(c: Class, o: ByteOrder, data: seq<byte>, at: nat, count: nat): (t: seq<SectionHeader>)
    requires TableFits(data, at, count, SectionSize(c))
    ensures |t| == count
  {
    seq(count, k requires 0 <= k < count =>
      SlotInTable(at, k, count, SectionSize(c));
      DecodeSection(c, o, Slot(data, at, k, SectionSize(c))))
  }

  /** A relocation section's entries: count records at native stride from byte at. */
  function RelocTable(c: Class, rk: RelKind, o: ByteOrder, data: seq<byte>, at: nat, count: nat): (t: seq<Reloc>)
    requires TableFits(data, at, count, RelocSize(c, rk))
    ensures |t| == count
  {
    seq(count, k requires 0 <= k < count =>
      SlotInTable(at, k, count, RelocSize(c, rk));
      DecodeReloc(c, rk, o, Slot(data, at, k, RelocSize(c, rk))))
  }

  /** Symbol k of a symbol table that starts at byte at. */
  function SymbolAt(c: Class, o: ByteOrder, data: seq<byte>, at: nat, k: nat): Symbol
    requires at + SymbolOffset(c, k) + SymbolSize(c) <= |data|
  {
    DecodeSymbol(c, o, data[at + SymbolOffset(c, k) .. at + SymbolOffset(c, k) + SymbolSize(c)])
  }

  /** The st_name of symbol k, read on its own: both classes store it in
      the record's first four bytes. */
  function NameAt(c: Class, o: ByteOrder, data: seq<byte>, at: nat, k: nat): u32
    requires at + SymbolOffset(c, k) + SymbolSize(c) <= |data|
  {
    Field32(o, data[at + SymbolOffset(c, k) .. at + SymbolOffset(c, k) + SymbolSize(c)], 0)
  }

  lemma SymbolNameAt(c: Class, o: ByteOrder, data: seq<byte>, at: nat, k: nat)
    requires at + SymbolOffset(c, k) + SymbolSize(c) <= |data|
    ensures SymbolAt(c, o, data, at, k).name == NameAt(c, o, data, at, k)
  {
    var b := data[at + SymbolOffset(c, k) .. at + SymbolOffset(c, k) + SymbolSize(c)];
    assert b[..4] == b[0 .. 4];
    FieldIsUInt(o, b, 0, 4);
  }

  /** The size bytes of data from byte at, as a Go []byte read in full. */
  function Range(data: seq<byte>, at: nat, size: nat): (r: seq<byte>)
    requires at + size <= |data|
    ensures |r| == size
  {
    data[at .. at + size]
  }
}
