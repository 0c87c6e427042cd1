/** The ELFFile record of the reader and the loaders that fill it in: the
    identification and header (setArch, mapHeader), the section table with
    its names (getSections), lookups by name and by type (getSectionNdx,
    getSectionByType), the two symbol tables (getSymbols, loadSymbols), the
    relocation sections (getRelocations), the resolution of their entries
    (printRelocations) and the program header table (getProgHeaders). */
module ElfReader {
  import opened Bytes
  import opened Layout
  import opened Reader
  import opened StrTab
  import opened Wrappers
  import opened Faults
  import opened Ident
  import opened Tables
  import opened Relocs

  const DYNSTR: string := ".dynstr"
  const STRTAB: string := ".strtab"

  /** The DynSym and Sym tags loadSymbols is called with. */
  datatype SymKind = DynSym | Sym

  /** getSectionNdx's answer: the first index whose name is the query, and 0
      when no name is. */
  function FirstIndex(names: seq<string>, name: string): (k: nat)
    ensures name in names ==> k < |names| && names[k] == name && forall j :: 0 <= j < k ==> names[j] != name
    ensures name !in names ==> k == 0
  {
    if name !in names || names[0] == name then 0
    else 1 + FirstIndex(names[1..], name)
  }

  /** loadSymbols(symNdx, strNdx): both indices name sections of secs, or
      the section slice index panics. */
  function SymbolTableAt(c: Class, o: ByteOrder, data: seq<byte>, secs: seq<SectionHeader>, symNdx: nat, strNdx: nat): (r: Result<SymbolTable, Error>)
    ensures symNdx >= |secs| || strNdx >= |secs| ==> r == Err(IndexOutOfRange)
  {
    if symNdx >= |secs| || strNdx >= |secs| then Err(IndexOutOfRange)
    else LoadSymbolTable(c, o, data, secs[symNdx], secs[strNdx])
  }

  /** One half of getSymbols: the symbol table named tab with the string
      table named str, None when tab is not found (getSectionNdx gives 0). */
  function LinkedLoad(c: Class, o: ByteOrder, data: seq<byte>, secs: seq<SectionHeader>, names: seq<string>,
                      tab: string, str: string): (r: Option<Result<SymbolTable, Error>>)
    ensures r.None? <==> tab !in names || names[0] == tab
    ensures r.Some? && str !in names ==> r.value == SymbolTableAt(c, o, data, secs, FirstIndex(names, tab), 0)
  {
    var t := FirstIndex(names, tab);
    if t == 0 then None else Some(SymbolTableAt(c, o, data, secs, t, FirstIndex(names, str)))
  }

  /** A table read from a 32-bit file holds 32-bit r_info words. */
  predicate RelInfoFits(c: Class, t: RelTable)
  {
    c == Class32 ==> forall e :: e in t.entries ==> e.info < TWO32
  }


  /** How getProgHeaders' listing ends: after the last entry, on a failed
      Seek or ReadFull or a short record (printed, then return), or with a
      panic. */
  datatype ProgEnd = Complete | SeekFailed | ShortRead | ShortRecord | Fatal(error: Error)

  /** The records binary.Read decodes before the listing ends (the first
      native-size bytes of each slice), and how it ends. */
  datatype ProgTable = ProgTable(records: seq<seq<byte>>, end: ProgEnd)

  /** entries are the program headers binary.Read decodes from records,
      one by one. */
  predicate DecodedFrom(c: Class, o: ByteOrder, records: seq<seq<byte>>, entries: seq<ProgHeader>)
  {
    |entries| == |records| &&
    forall j :: 0 <= j < |records| ==> |records[j]| >= ProgSize(c) && entries[j] == DecodeProg(c, o, records[j])
  }

  /** binary.Read of one more record: its entry goes after the others. */
  method DecodeNext(c: Class, o: ByteOrder, ghost records: seq<seq<byte>>, entries: seq<ProgHeader>, record: seq<byte>) returns (entries': seq<ProgHeader>)
    requires DecodedFrom(c, o, records, entries) && |record| >= ProgSize(c)
    ensures DecodedFrom(c, o, records + [record], entries')
    ensures entries' == entries + [DecodeProg(c, o, record)]
  {
    entries' := entries + [DecodeProg(c, o, record)];
  }

  /** The program header buffer: Phnum * Phentsize bytes, wrapped to uint16. */
  function ProgBufLen(h: Header): nat
  {
    Wrap16(h.phnum * h.phentsize)
  }

  /** The entry loop of getProgHeaders on a buffer, from the slice that
      starts at byte pos: count slices of ent bytes, one after the other; a
      slice that runs past the buffer panics, and a slice shorter than the
      native record ends the listing. */
  function Slices(c: Class, buf: seq<byte>, pos: nat, count: nat, ent: nat): (r: ProgTable)
    ensures |r.records| <= count
    ensures r.end == Complete ==> |r.records| == count
    decreases count
  {
    if count == 0 then ProgTable([], Complete)
    else if pos + ent > |buf| then ProgTable([], Fatal(SegmentSliceOutOfRange))
    else if ent < ProgSize(c) then ProgTable([], ShortRecord)
    else
      var rest := Slices(c, buf, pos + ent, count - 1, ent);
      ProgTable([buf[pos .. pos + ProgSize(c)]] + rest.records, rest.end)
  }

  /** Every record cut by the slicing loop is a native-size program header. */
  lemma {:induction false} SlicesSized(c: Class, buf: seq<byte>, pos: nat, count: nat, ent: nat)
    ensures forall j :: 0 <= j < |Slices(c, buf, pos, count, ent).records| ==>
              |Slices(c, buf, pos, count, ent).records[j]| == ProgSize(c)
    decreases count
  {
    if count > 0 && pos + ent <= |buf| && ent >= ProgSize(c) {
      SlicesSized(c, buf, pos + ent, count - 1, ent);
      var r := Slices(c, buf, pos, count, ent);
      var rest := Slices(c, buf, pos + ent, count - 1, ent);
      var record := buf[pos .. pos + ProgSize(c)];
      assert r.records == [record] + rest.records;
      forall j | 0 <= j < |r.records| ensures |r.records[j]| == ProgSize(c) {
        if j == 0 {
          assert r.records[j] == record;
        } else {
          assert r.records[j] == rest.records[j - 1];
        }
      }
    }
  }

  /** The slicing loop ends after the last entry, on a Phentsize below the
      native size, or on a slice past the end of the buffer. */
  lemma {:induction false} SlicesEnd(c: Class, buf: seq<byte>, pos: nat, count: nat, ent: nat)
    ensures var e := Slices(c, buf, pos, count, ent).end;
            e == Complete || e == ShortRecord || e == Fatal(SegmentSliceOutOfRange)
    decreases count
  {
    if count > 0 && pos + ent <= |buf| && ent >= ProgSize(c) {
      SlicesEnd(c, buf, pos + ent, count - 1, ent);
    }
  }

  /** The bytes io.ReadFull puts in the buffer of len bytes at Phoff. */
  function ProgBuffer(data: seq<byte>, at: nat, len: nat): seq<byte>
    requires len == 0 || at + len <= |data|
  {
    if len == 0 then [] else data[at .. at + len]
  }

  /** The decode part of getProgHeaders for class c: Seek to int64(Phoff),
      ReadFull the uint16-wrapped buffer, then cut entry i from the slice
      [i * Phentsize, (i + 1) * Phentsize) of the buffer. */
  function ProgTableOf(c: Class, data: seq<byte>, h: Header): (r: ProgTable)
    ensures Start(c, h.phoff) < 0 <==> r.end == SeekFailed
    ensures r.end == ShortRead <==>
      Start(c, h.phoff) >= 0 && ProgBufLen(h) > 0 && h.phoff + ProgBufLen(h) > |data|
    ensures |r.records| <= h.phnum
    ensures r.end == Complete ==> |r.records| == h.phnum
    ensures forall j :: 0 <= j < |r.records| ==> |r.records[j]| == ProgSize(c)
  {
    var len := ProgBufLen(h);
    if Start(c, h.phoff) < 0 then ProgTable([], SeekFailed)
    else if len > 0 && h.phoff + len > |data| then ProgTable([], ShortRead)
    else
      SlicesEnd(c, ProgBuffer(data, h.phoff, len), 0, h.phnum, h.phentsize);
      SlicesSized(c, ProgBuffer(data, h.phoff, len), 0, h.phnum, h.phentsize);
      Slices(c, ProgBuffer(data, h.phoff, len), 0, h.phnum, h.phentsize)
  }

  /** getProgHeaders as written: the first statement asserts an
      *elf.Header64, so a 32-bit file never reaches its 32-bit branch. */
  function ProgHeadersAsWritten(c: Class, data: seq<byte>, h: Header): (r: ProgTable)
    ensures c == Class32 ==> r == ProgTable([], Fatal(NotHeader64))
    ensures c == Class64 ==> r == ProgTableOf(c, data, h)
  {
    if c == Class32 then ProgTable([], Fatal(NotHeader64)) else ProgTableOf(Class64, data, h)
  }

  /** A buffer that holds count whole slices of at least the native size
      after pos lists them all, record j taken from byte pos + j * ent. */
  lemma SlicesFull(c: Class, buf: seq<byte>, pos: nat, count: nat, ent: nat)
    requires ent >= ProgSize(c) && pos + count * ent <= |buf|
    ensures Slices(c, buf, pos, count, ent).end == Complete
    ensures |Slices(c, buf, pos, count, ent).records| == count
    ensures forall j :: 0 <= j < count ==>
      pos + j * ent + ProgSize(c) <= |buf| &&
      Slices(c, buf, pos, count, ent).records[j] == buf[pos + j * ent .. pos + j * ent + ProgSize(c)]
  {
    StrideIs(count, ent);
    SlicesComplete(c, buf, pos, count, ent);
    forall j | 0 <= j < count
      ensures pos + j * ent + ProgSize(c) <= |buf|
      ensures Slices(c, buf, pos, count, ent).records[j] == buf[pos + j * ent .. pos + j * ent + ProgSize(c)]
    {
      StrideIs(j, ent);
      SlicesAt(c, buf, pos, count, ent, j);
    }
  }

  /** The first byte of slice j after pos: j strides of ent bytes. */
  function Stride(j: nat, ent: nat): nat
  {
    if j == 0 then 0 else Stride(j - 1, ent) + ent
  }

  lemma {:induction false} StrideIs(j: nat, ent: nat)
    ensures Stride(j, ent) == j * ent
  {
    if j > 0 {
      StrideIs(j - 1, ent);
      assert j * ent == (j - 1) * ent + ent;
    }
  }

  /** With room for count whole slices the loop runs to the end. */
  lemma {:induction false} SlicesComplete(c: Class, buf: seq<byte>, pos: nat, count: nat, ent: nat)
    requires ent >= ProgSize(c) && pos + Stride(count, ent) <= |buf|
    ensures Slices(c, buf, pos, count, ent).end == Complete
    decreases count
  {
    if count > 0 {
      StrideShift(count - 1, ent);
      SlicesComplete(c, buf, pos + ent, count - 1, ent);
    }
  }

  /** Striding j + 1 times is one stride followed by j more. */
  lemma {:induction false} StrideShift(j: nat, ent: nat)
    ensures Stride(j + 1, ent) == ent + Stride(j, ent)
  {
    if j > 0 {
      StrideShift(j - 1, ent);
    }
  }

  /** Record j of a complete slicing is the slice j strides after pos. */
  lemma {:induction false} SlicesAt(c: Class, buf: seq<byte>, pos: nat, count: nat, ent: nat, j: nat)
    requires ent >= ProgSize(c) && pos + Stride(count, ent) <= |buf| && j < count
    ensures pos + Stride(j, ent) + ProgSize(c) <= |buf|
    ensures j < |Slices(c, buf, pos, count, ent).records|
    ensures Slices(c, buf, pos, count, ent).records[j]
         == buf[pos + Stride(j, ent) .. pos + Stride(j, ent) + ProgSize(c)]
    decreases count
  {
    StrideShift(count - 1, ent);
    var rest := Slices(c, buf, pos + ent, count - 1, ent);
    assert Slices(c, buf, pos, count, ent).records == [buf[pos .. pos + ProgSize(c)]] + rest.records;
    if j > 0 {
      SlicesAt(c, buf, pos + ent, count - 1, ent, j - 1);
      StrideShift(j - 1, ent);
    }
  }

  /** A table that lies inside the file, with entries of at least the
      native size and a product Phnum * Phentsize below 2^16, is listed in
      full, record i from byte Phoff + i * Phentsize of the file. */
  lemma ProgTableComplete(c: Class, data: seq<byte>, h: Header)
    requires h.phentsize >= ProgSize(c) && h.phnum * h.phentsize < TWO16
    requires h.phoff + h.phnum * h.phentsize <= |data| && h.phoff < TWO63
    ensures ProgTableOf(c, data, h).end == Complete
    ensures |ProgTableOf(c, data, h).records| == h.phnum
    ensures forall i :: 0 <= i < h.phnum ==>
      h.phoff + i * h.phentsize + ProgSize(c) <= |data| &&
      ProgTableOf(c, data, h).records[i]
        == data[h.phoff + i * h.phentsize .. h.phoff + i * h.phentsize + ProgSize(c)]
  {
    var len := ProgBufLen(h);
    assert len == h.phnum * h.phentsize;
    var buf := ProgBuffer(data, h.phoff, len);
    assert ProgTableOf(c, data, h) == Slices(c, buf, 0, h.phnum, h.phentsize);
    SlicesFull(c, buf, 0, h.phnum, h.phentsize);
    forall i | 0 <= i < h.phnum
      ensures h.phoff + i * h.phentsize + ProgSize(c) <= |data|
      ensures buf[i * h.phentsize .. i * h.phentsize + ProgSize(c)]
           == data[h.phoff + i * h.phentsize .. h.phoff + i * h.phentsize + ProgSize(c)]
    {
      BufferSlice(data, h.phoff, len, i * h.phentsize, ProgSize(c));
    }
  }

  /** Bytes q to q + size of the buffer read at at are those of the file. */
  lemma BufferSlice(data: seq<byte>, at: nat, len: nat, q: nat, size: nat)
    requires at + len <= |data| && q + size <= len
    ensures at + q + size <= |data|
    ensures ProgBuffer(data, at, len)[q .. q + size] == data[at + q .. at + q + size]
  {
    if len > 0 {
      var b := data[at .. at + len];
      assert ProgBuffer(data, at, len) == b;
      forall k | q <= k < q + size
        ensures b[k] == data[at + k]
      {
      }
      assert b[q .. q + size] == data[at + q .. at + q + size];
    }
  }

  /** The uint16 product wraps: 1171 native 64-bit entries need 65576 bytes,
      the buffer gets 40, and the first slice already panics. */
  lemma ProgTableWrapped(data: seq<byte>, h: Header)
    requires h.phentsize == 56 && h.phnum == 1171 && h.phoff + 40 <= |data| && h.phoff < TWO63
    ensures ProgTableOf(Class64, data, h) == ProgTable([], Fatal(SegmentSliceOutOfRange))
  {
    assert ProgBufLen(h) == 40;
  }

  /** On a 32-bit file getProgHeaders as written stops with the failed
      assertion, where its own 32-bit branch would list every entry. */
  lemma ProgHeaders32Crash(data: seq<byte>, h: Header)
    requires h.phnum > 0 && h.phentsize >= 32 && h.phnum * h.phentsize < TWO16
    requires h.phoff + h.phnum * h.phentsize <= |data| && h.phoff < TWO63
    ensures ProgHeadersAsWritten(Class32, data, h) == ProgTable([], Fatal(NotHeader64))
    ensures ProgTableOf(Class32, data, h).end == Complete
    ensures |ProgTableOf(Class32, data, h).records| == h.phnum > 0
  {
    ProgTableComplete(Class32, data, h);
  }

  /** The slicing loop with the records cut so far in done: what Slices
      gives from pos on, after those. */
  function SlicesAfter(c: Class, buf: seq<byte>, pos: nat, count: nat, ent: nat, done: seq<seq<byte>>): ProgTable
    decreases count
  {
    if count == 0 then ProgTable(done, Complete)
    else if pos + ent > |buf| then ProgTable(done, Fatal(SegmentSliceOutOfRange))
    else if ent < ProgSize(c) then ProgTable(done, ShortRecord)
    else SlicesAfter(c, buf, pos + ent, count - 1, ent, done + [buf[pos .. pos + ProgSize(c)]])
  }

  lemma {:induction false} SlicesAfterIs(c: Class, buf: seq<byte>, pos: nat, count: nat, ent: nat, done: seq<seq<byte>>)
    ensures var r := Slices(c, buf, pos, count, ent);
            SlicesAfter(c, buf, pos, count, ent, done) == ProgTable(done + r.records, r.end)
    decreases count
  {
    if count > 0 && pos + ent <= |buf| && ent >= ProgSize(c) {
      var record := buf[pos .. pos + ProgSize(c)];
      SlicesAfterIs(c, buf, pos + ent, count - 1, ent, done + [record]);
      var rest := Slices(c, buf, pos + ent, count - 1, ent);
      assert (done + [record]) + rest.records == done + ([record] + rest.records);
    } else {
      assert done + [] == done;
    }
  }

  /** The entry loop of getProgHeaders: slice i of the buffer is
      [i * ent, (i + 1) * ent), read with binary.Read (pos is i * ent). */
  method DecodeSlices(c: Class, o: ByteOrder, buffer: seq<byte>, count: nat, ent: nat) returns (entries: seq<ProgHeader>, end: ProgEnd)
    ensures end == Slices(c, buffer, 0, count, ent).end
    ensures DecodedFrom(c, o, Slices(c, buffer, 0, count, ent).records, entries)
  {
    ghost var whole := Slices(c, buffer, 0, count, ent);
    ghost var done: seq<seq<byte>> := [];
    SlicesAfterIs(c, buffer, 0, count, ent, []);
    assert [] + whole.records == whole.records;
    entries := [];
    var i: nat, pos: nat := 0, 0;
    while i < count
      invariant i <= count
      invariant DecodedFrom(c, o, done, entries)
      invariant SlicesAfter(c, buffer, pos, count - i, ent, done) == whole
    {
      if pos + ent > |buffer| {
        return entries, Fatal(SegmentSliceOutOfRange);
      }
      if ent < ProgSize(c) {
        return entries, ShortRecord;
      }
      var record := buffer[pos .. pos + ProgSize(c)];
      entries := DecodeNext(c, o, done, entries, record);
      done := done + [record];
      i, pos := i + 1, pos + ent;
    }
    end := Complete;
  }

  /** The decode part of getProgHeaders for class c: Seek to int64(Phoff),
      ReadFull the buffer, then the entry loop. */
  method ReadProgTable(c: Class, o: ByteOrder, data: seq<byte>, h: Header) returns (entries: seq<ProgHeader>, end: ProgEnd)
    ensures end == ProgTableOf(c, data, h).end
    ensures DecodedFrom(c, o, ProgTableOf(c, data, h).records, entries)
  {
    var len := ProgBufLen(h);
    if Start(c, h.phoff) < 0 {
      return [], SeekFailed;
    }
    if len > 0 && h.phoff + len > |data| {
      return [], ShortRead;
    }
    var buffer := ProgBuffer(data, h.phoff, len);
    entries, end := DecodeSlices(c, o, buffer, h.phnum, h.phentsize);
  }

  /** What the loop of loadSymbols holds after the first k symbols: they
      could all be read and named, the maps hold them and their names, and
      the first failure, if any, lies at k or later. */
  ghost predicate SymbolsRead(c: Class, o: ByteOrder, data: seq<byte>, s: SectionHeader, tbl: seq<byte>, k: nat,
                              symbols: map<u32, Symbol>, names: map<u32, string>)
  {
    k <= SymCount(c, s) &&
    (forall j: nat :: j < k ==> SymbolReadable(c, data, s, j)) &&
    FirstSymbolError(c, o, data, s, tbl, 0) == FirstSymbolError(c, o, data, s, tbl, k) &&
    symbols == SymbolMap(c, o, data, s, k) &&
    (forall j :: j in symbols ==> symbols[j].name <= |tbl|) &&
    names == NameMap(symbols, tbl)
  }

  /** Storing symbol k, readable and named inside the table, and its name
      extends what was read by one symbol. */
  lemma SymbolsReadNext(c: Class, o: ByteOrder, data: seq<byte>, s: SectionHeader, tbl: seq<byte>, k: nat,
                        symbols: map<u32, Symbol>, names: map<u32, string>, sym: Symbol)
    requires |data| < TWO32 && SymbolsRead(c, o, data, s, tbl, k, symbols, names)
    requires k < SymCount(c, s) && SymbolReadable(c, data, s, k)
    requires (SymbolReadableFits(c, data, s, k); sym == SymbolAt(c, o, data, s.off, k)) && sym.name <= |tbl|
    ensures k < TWO32
    ensures SymbolsRead(c, o, data, s, tbl, k + 1, symbols[k as u32 := sym], names[sym.name := StringAt(tbl, sym.name)])
  {
    SymbolIndexFits(c, data, s, k);
    var symbols' := symbols[k as u32 := sym];
    SymbolNameAt(c, o, data, s.off, k);
    FirstSymbolErrorNext(c, o, data, s, tbl, k);
    assert forall j: nat :: j <= k ==> SymbolReadable(c, data, s, j);
    SymbolMapNext(c, o, data, s, k);
    assert k as u32 !in symbols;
    NameMapInsert(symbols, k as u32, sym, tbl);
  }

  /** A symbol that cannot be read, or whose name lies past the table, is
      the table's first failure. */
  lemma SymbolsReadFails(c: Class, o: ByteOrder, data: seq<byte>, s: SectionHeader, tbl: seq<byte>, k: nat,
                         symbols: map<u32, Symbol>, names: map<u32, string>)
    requires SymbolsRead(c, o, data, s, tbl, k, symbols, names) && k < SymCount(c, s)
    ensures !SymbolReadable(c, data, s, k) ==> SymbolTableOf(c, o, data, s, tbl) == Err(TruncatedRead)
    ensures SymbolReadable(c, data, s, k) &&
            (SymbolReadableFits(c, data, s, k); NameAt(c, o, data, s.off, k) > |tbl|) ==>
            SymbolTableOf(c, o, data, s, tbl) == Err(NameOffsetOutOfRange)
  {
  }

  /** Once every symbol is read the maps are the loaded table. */
  lemma SymbolsReadAll(c: Class, o: ByteOrder, data: seq<byte>, s: SectionHeader, tbl: seq<byte>,
                       symbols: map<u32, Symbol>, names: map<u32, string>)
    requires SymbolsRead(c, o, data, s, tbl, SymCount(c, s), symbols, names)
    ensures SymbolTableOf(c, o, data, s, tbl) == Ok(SymbolTable(symbols, names))
  {
  }

  /** The loop of loadSymbols over one symbol table: symbol k is read from
      the table's window and stored under key k, its name under its st_name. */
  method ReadSymbols(c: Class, o: ByteOrder, data: seq<byte>, s: SectionHeader, tbl: seq<byte>)
    returns (symbols: map<u32, Symbol>, names: map<u32, string>, err: Option<Error>)
    requires |data| < TWO32 && |tbl| < TWO32
    ensures (if err.Some? then Err(err.value) else Ok(SymbolTable(symbols, names)))
            == SymbolTableOf(c, o, data, s, tbl)
  {
    symbols, names := map[], map[];
    var k: nat := 0;
    assert symbols == SymbolMap(c, o, data, s, 0);
    while k < SymCount(c, s)
      invariant SymbolsRead(c, o, data, s, tbl, k, symbols, names)
      decreases SymCount(c, s) - k
    {
      SymbolsReadFails(c, o, data, s, tbl, k, symbols, names);
      if !SymbolReadable(c, data, s, k) {
        err := Some(TruncatedRead);
        return;
      }
      SymbolReadableFits(c, data, s, k);
      SymbolIndexFits(c, data, s, k);
      var sym := SymbolAt(c, o, data, s.off, k);
      SymbolNameAt(c, o, data, s.off, k);
      if sym.name > |tbl| {
        err := Some(NameOffsetOutOfRange);
        return;
      }
      var name := GetSymbolName(sym.name, tbl);
      SymbolsReadNext(c, o, data, s, tbl, k, symbols, names, sym);
      symbols := symbols[k as u32 := sym];
      names := names[sym.name := name];
      k := k + 1;
    }
    SymbolsReadAll(c, o, data, s, tbl, symbols, names);
    err := None;
  }

  /** The ELFFile record: the open file, its identification bytes, the class,
      byte order and machine, the decoded header, the section table with
      its names, the two symbol maps with their name maps, and Rels. */
  class ElfFile {
    const data: seq<byte>
    const ident: seq<byte>
    var arch: Option<Class>
    var order: Option<ByteOrder>
    var machine: u16
    var hdr: Option<Header>
    var sections: seq<SectionHeader>
    var sectionNames: seq<string>
    var symbols: map<u32, Symbol>
    var symbolsName: map<u32, string>
    var dynSymbols: map<u32, Symbol>
    var dynSymbolsName: map<u32, string>
    var rels: map<u32, RelTable>

    /** The file lies below 4 GiB; the class, once set, is the one e_ident
        names; a decoded header comes with its class and byte order and
        supplies the machine; every section has a name; the relocation
        tables hold words of the file's class. */
    ghost predicate Valid()
      reads this
    {
      |data| < TWO32 && ident == IdentOf(data) &&
      (arch.Some? ==> arch == ClassOf(ident[EI_CLASS])) &&
      (hdr.Some? ==> arch.Some? && order.Some? && machine == hdr.value.machine) &&
      |sectionNames| == |sections| < TWO16 &&
      (forall k :: k in rels ==> arch.Some? && RelInfoFits(arch.value, rels[k]))
    }

    /** os.Open followed by Fh.Read(Ident[:16]). */
    constructor Open(file: seq<byte>)
      requires |file| < TWO32
      ensures Valid() && data == file
      ensures arch == None && order == None && hdr == None && machine == 0
      ensures sections == [] && sectionNames == []
      ensures symbols == map[] && symbolsName == map[] && dynSymbols == map[] && dynSymbolsName == map[]
      ensures rels == map[]
    {
      data := file;
      ident := IdentOf(file);
      arch, order, hdr, machine := None, None, None, 0;
      sections, sectionNames := [], [];
      symbols, symbolsName, dynSymbols, dynSymbolsName := map[], map[], map[], map[];
      rels := map[];
    }

    /** setArch: class byte 2 selects the 64-bit header, 1 the 32-bit one,
        any other value exits; the header is fresh, not yet decoded. */
    method SetArch() returns (err: Option<Error>)
      requires Valid()
      modifies this`arch, this`hdr
      ensures Valid()
      ensures err.None? <==> ident[EI_CLASS] == ELFCLASS32 || ident[EI_CLASS] == ELFCLASS64
      ensures err.None? ==> arch == ClassOf(ident[EI_CLASS]) && hdr == None
      ensures err.Some? ==> err == Some(InvalidClass) && arch == old(arch) && hdr == old(hdr)
    {
      var c := ClassOf(ident[EI_CLASS]);
      if c.None? {
        err := Some(InvalidClass);
        return;
      }
      arch, hdr := c, None;
      err := None;
    }

    /** mapHeader: data byte 1 selects little-endian, 2 big-endian, any other
        value only warns and leaves the byte order as it was; then the
        header is decoded from the start of the file and its e_machine
        recorded. The read fails on a file shorter than the header, and with
        no byte order the decoding panics. */
    method MapHeader() returns (warned: bool, err: Option<Error>)
      requires Valid() && arch.Some?
      modifies this`order, this`hdr, this`machine
      ensures Valid()
      ensures warned <==> ident[EI_DATA] != ELFDATA2LSB && ident[EI_DATA] != ELFDATA2MSB
      ensures order == if warned then old(order) else OrderOf(ident[EI_DATA])
      ensures err == if |data| < HeaderSize(arch.value) then Some(TruncatedRead)
                     else if order.None? then Some(NilByteOrder) else None
      ensures err.None? ==>
        hdr == Some(DecodeHeader(arch.value, order.value, data[..HeaderSize(arch.value)])) &&
        hdr.value.ident == ident && machine == hdr.value.machine
      ensures err.Some? ==> hdr == old(hdr) && machine == old(machine)
    {
      var o := OrderOf(ident[EI_DATA]);
      warned := o.None?;
      if !warned {
        order := o;
      }
      var c := arch.value;
      if |data| < HeaderSize(c) {
        err := Some(TruncatedRead);
        return;
      }
      if order.None? {
        err := Some(NilByteOrder);
        return;
      }
      var h := DecodeHeader(c, order.value, data[..HeaderSize(c)]);
      assert h.ident == ident;
      hdr := Some(h);
      machine := h.machine;
      err := None;
    }

    /** getSections: the Shnum section headers and then, for each, its name
        looked up in the section Shstrndx names. */
    method GetSections() returns (err: Option<Error>)
      requires Valid() && hdr.Some?
      modifies this`sections, this`sectionNames
      ensures Valid()
      ensures var r := LoadSections(arch.value, order.value, data, hdr.value);
        (err.None? <==> r.Ok?) &&
        (r.Err? ==> err == Some(r.error) && sections == old(sections) && sectionNames == old(sectionNames)) &&
        (r.Ok? ==> sections == r.value.sections && |sectionNames| == hdr.value.shnum &&
                   forall i :: 0 <= i < |sections| ==> sectionNames[i] == StringAt(r.value.shstrtab, sections[i].name))
    {
      var r := LoadSections(arch.value, order.value, data, hdr.value);
      if r.Err? {
        err := Some(r.error);
        return;
      }
      var secs, tbl := r.value.sections, r.value.shstrtab;
      var names := seq(|secs|, _ => "");
      var i := 0;
      while i < |secs|
        invariant 0 <= i <= |secs| && |names| == |secs|
        invariant forall j :: 0 <= j < i ==> names[j] == StringAt(tbl, secs[j].name)
      {
        var name := GetSectionName(secs[i].name, tbl);
        names := names[i := name];
        i := i + 1;
      }
      sections, sectionNames := secs, names;
      err := None;
    }

    /** getSectionNdx: the first section with the given name, 0 when none
        has it. */
    method SectionNdx(name: string) returns (ndx: u32)
      requires Valid()
      ensures ndx == FirstIndex(sectionNames, name)
    {
      ndx := 0;
      while ndx < |sectionNames| as u32
        invariant ndx <= |sectionNames|
        invariant forall j :: 0 <= j < ndx ==> sectionNames[j] != name
      {
        if sectionNames[ndx] == name {
          return;
        }
        ndx := ndx + 1;
      }
      ndx := 0;
    }

    /** getSectionByType: the indices of the sections of type t, in
        increasing order, each exactly once. */
    method SectionByType(t: u32) returns (list: seq<u32>)
      requires Valid()
      ensures forall a :: 0 <= a < |list| ==> list[a] < |sections| && sections[list[a]].shType == t
      ensures forall j :: 0 <= j < |sections| && sections[j].shType == t ==> j as u32 in list
      ensures forall a, b :: 0 <= a < b < |list| ==> list[a] < list[b]
    {
      list := [];
      var ndx: u32 := 0;
      while ndx < |sections| as u32
        invariant ndx <= |sections|
        invariant forall a :: 0 <= a < |list| ==> list[a] < ndx && sections[list[a]].shType == t
        invariant forall j :: 0 <= j < ndx && sections[j].shType == t ==> j as u32 in list
        invariant forall a, b :: 0 <= a < b < |list| ==> list[a] < list[b]
      {
        if sections[ndx].shType == t {
          list := list + [ndx];
        }
        ndx := ndx + 1;
      }
    }

    /** loadSymbols(sectionNdx, symstrNdx, kind): reads the string table,
        then the symbols, into the maps of the given kind; the other kind's
        maps are not touched. */
    method LoadSymbols(sectionNdx: u32, symstrNdx: u32, kind: SymKind) returns (err: Option<Error>)
      requires Valid() && hdr.Some?
      modifies this`symbols, this`symbolsName, this`dynSymbols, this`dynSymbolsName
      ensures Valid()
      ensures var r := SymbolTableAt(arch.value, order.value, data, sections, sectionNdx, symstrNdx);
        (err.None? <==> r.Ok?) && (r.Err? ==> err == Some(r.error)) &&
        (r.Ok? && kind == Sym ==> symbols == r.value.symbols && symbolsName == r.value.names) &&
        (r.Ok? && kind == DynSym ==> dynSymbols == r.value.symbols && dynSymbolsName == r.value.names)
      ensures kind == Sym || err.Some? ==> dynSymbols == old(dynSymbols) && dynSymbolsName == old(dynSymbolsName)
      ensures kind == DynSym || err.Some? ==> symbols == old(symbols) && symbolsName == old(symbolsName)
    {
      if sectionNdx as nat >= |sections| || symstrNdx as nat >= |sections| {
        err := Some(IndexOutOfRange);
        return;
      }
      var c, o := arch.value, order.value;
      var s, str := sections[sectionNdx], sections[symstrNdx];
      if !StrTabReadable(c, data, str) {
        err := Some(TruncatedRead);
        return;
      }
      var tbl := SectionBytes(c, data, str);
      var m, names, e := ReadSymbols(c, o, data, s, tbl);
      if e.Some? {
        err := e;
        return;
      }
      if kind == Sym {
        symbols, symbolsName := m, names;
      } else {
        dynSymbols, dynSymbolsName := m, names;
      }
      err := None;
    }

    /** One block of getSymbols: getSectionNdx of the symbol table tab and,
        when it is not 0, of its string table str, then loadSymbols into the
        maps of kind. */
    method LoadLinked(tab: string, str: string, kind: SymKind) returns (err: Option<Error>)
      requires Valid() && hdr.Some?
      modifies this`symbols, this`symbolsName, this`dynSymbols, this`dynSymbolsName
      ensures Valid()
      ensures var l := LinkedLoad(arch.value, order.value, data, sections, sectionNames, tab, str);
        (err.None? <==> l.None? || l.value.Ok?) &&
        (l.Some? && l.value.Err? ==> err == Some(l.value.error)) &&
        (l.Some? && l.value.Ok? && kind == Sym ==> symbols == l.value.value.symbols && symbolsName == l.value.value.names) &&
        (l.Some? && l.value.Ok? && kind == DynSym ==> dynSymbols == l.value.value.symbols && dynSymbolsName == l.value.value.names) &&
        (l.None? || err.Some? ==> symbols == old(symbols) && symbolsName == old(symbolsName) &&
                                  dynSymbols == old(dynSymbols) && dynSymbolsName == old(dynSymbolsName))
      ensures kind == Sym ==> dynSymbols == old(dynSymbols) && dynSymbolsName == old(dynSymbolsName)
      ensures kind == DynSym ==> symbols == old(symbols) && symbolsName == old(symbolsName)
    {
      var t := SectionNdx(tab);
      if t == 0 {
        return None;
      }
      var ts := SectionNdx(str);
      err := LoadSymbols(t, ts, kind);
    }

    /** getSymbols: .dynsym with .dynstr, then .symtab with .strtab, each
        only when getSectionNdx finds the symbol table. */
    method GetSymbols() returns (err: Option<Error>)
      requires Valid() && hdr.Some?
      modifies this`symbols, this`symbolsName, this`dynSymbols, this`dynSymbolsName
      ensures Valid()
      ensures var d := LinkedLoad(arch.value, order.value, data, sections, sectionNames, DYNSYM, DYNSTR);
              var st := LinkedLoad(arch.value, order.value, data, sections, sectionNames, SYMTAB, STRTAB);
        (err.None? <==> (d.None? || d.value.Ok?) && (st.None? || st.value.Ok?)) &&
        (d.Some? && d.value.Err? ==> err == Some(d.value.error)) &&
        ((d.None? || d.value.Ok?) && st.Some? && st.value.Err? ==> err == Some(st.value.error)) &&
        (d.None? || d.value.Err? ==> dynSymbols == old(dynSymbols) && dynSymbolsName == old(dynSymbolsName)) &&
        (d.Some? && d.value.Ok? ==> dynSymbols == d.value.value.symbols && dynSymbolsName == d.value.value.names) &&
        ((d.Some? && d.value.Err?) || st.None? || st.value.Err? ==> symbols == old(symbols) && symbolsName == old(symbolsName)) &&
        ((d.None? || d.value.Ok?) && st.Some? && st.value.Ok? ==>
           symbols == st.value.value.symbols && symbolsName == st.value.value.names)
    {
      err := LoadLinked(DYNSYM, DYNSTR, DynSym);
      if err.Some? {
        return;
      }
      err := LoadLinked(SYMTAB, STRTAB, Sym);
    }

    /** getRelocations: Rels holds, under its section index, the entries of
        every SHT_REL and SHT_RELA section. */
    method GetRelocations() returns (err: Option<Error>)
      requires Valid() && hdr.Some?
      modifies this`rels
      ensures Valid()
      ensures err.None? <==> forall i :: 0 <= i < |sections| && IsRelSection(sections[i]) ==> RelReadable(arch.value, data, sections[i])
      ensures err.Some? ==> err == Some(TruncatedRead) && rels == old(rels)
      ensures err.None? ==> forall k: u32 :: k in rels <==> k < |sections| && IsRelSection(sections[k])
      ensures err.None? ==> forall k :: k in rels ==> rels[k] == RelTableOf(arch.value, order.value, data, sections[k])
    {
      var c, o := arch.value, order.value;
      var found: map<u32, RelTable> := map[];
      var ndx: u32 := 0;
      while ndx < |sections| as u32
        invariant ndx <= |sections|
        invariant forall i :: 0 <= i < ndx && IsRelSection(sections[i]) ==> RelReadable(c, data, sections[i])
        invariant forall k: u32 :: k in found <==> k < ndx && IsRelSection(sections[k])
        invariant forall k :: k in found ==> RelTableOf(c, o, data, sections[k]) == found[k]
      {
        var s := sections[ndx];
        if IsRelSection(s) {
          if !RelReadable(c, data, s) {
            err := Some(TruncatedRead);
            return;
          }
          found := found[ndx := RelTableOf(c, o, data, s)];
        }
        ndx := ndx + 1;
      }
      rels := found;
      err := None;
    }

    /** The resolution of entry e of the relocation section with index k,
        against the record's current tables. */
    function Resolve(k: u32, e: Reloc): Result<Resolved, Error>
      requires Valid() && hdr.Some? && k in rels && k < |sections|
      requires arch.value == Class32 ==> e.info < TWO32
      reads this
    {
      ResolveEntry(arch.value, machine, sectionNames, sections[k],
                   SymbolTable(dynSymbols, dynSymbolsName), SymbolTable(symbols, symbolsName),
                   rels[k].kind, e)
    }

    /** The listing of one relocation section in printRelocations: the
        section's name is looked up first, then every entry is resolved in
        order until one fails. */
    method ResolveSection(k: u32) returns (lines: seq<Resolved>, err: Option<Error>)
      requires Valid() && hdr.Some? && k in rels
      ensures k >= |sectionNames| ==> lines == [] && err == Some(IndexOutOfRange)
      ensures k < |sectionNames| ==>
        var es := rels[k].entries;
        |lines| <= |es| &&
        (forall i :: 0 <= i < |lines| ==> Resolve(k, es[i]) == Ok(lines[i])) &&
        (err.None? <==> |lines| == |es|) &&
        (err.Some? ==> Resolve(k, es[|lines|]) == Err(err.value))
    {
      if k as nat >= |sectionNames| {
        return [], Some(IndexOutOfRange);
      }
      var es := rels[k].entries;
      assert forall e :: e in es ==> (arch.value == Class32 ==> e.info < TWO32);
      lines := [];
      var i := 0;
      while i < |es|
        invariant 0 <= i <= |es| && |lines| == i
        invariant forall j :: 0 <= j < i ==> Resolve(k, es[j]) == Ok(lines[j])
      {
        var r := ResolveEntry(arch.value, machine, sectionNames, sections[k],
                              SymbolTable(dynSymbols, dynSymbolsName), SymbolTable(symbols, symbolsName),
                              rels[k].kind, es[i]);
        if r.Err? {
          return lines, Some(r.error);
        }
        lines := lines + [r.value];
        i := i + 1;
      }
      err := None;
    }

    /** getProgHeaders as written: ends with the failed assertion on a
        32-bit file. */
    method ProgHeaders() returns (entries: seq<ProgHeader>, end: ProgEnd)
      requires Valid() && hdr.Some?
      ensures end == ProgHeadersAsWritten(arch.value, data, hdr.value).end
      ensures DecodedFrom(arch.value, order.value, ProgHeadersAsWritten(arch.value, data, hdr.value).records, entries)
    {
      if arch.value == Class32 {
        return [], Fatal(NotHeader64);
      }
      entries, end := ReadProgTable(Class64, order.value, data, hdr.value);
    }

    /** getProgHeaders with the header count taken from the file's own
        class, so that its 32-bit branch is reached. */
    method ProgHeadersByClass() returns (entries: seq<ProgHeader>, end: ProgEnd)
      requires Valid() && hdr.Some?
      ensures end == ProgTableOf(arch.value, data, hdr.value).end
      ensures DecodedFrom(arch.value, order.value, ProgTableOf(arch.value, data, hdr.value).records, entries)
    {
      entries, end := ReadProgTable(arch.value, order.value, data, hdr.value);
    }
  }
}
