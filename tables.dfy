/** What the loaders read from the file, stated as functions of the file's
    bytes: the section header table with its string table, the symbol tables
    with theirs, and the relocation sections. Every read goes through an
    io.SectionReader whose start and length are computed exactly as the Go
    code computes them, in the width of the fields involved. */
module Tables {
  import opened Bytes
  import opened Layout
  import opened Reader
  import opened StrTab
  import opened Wrappers
  import opened Faults

  /** SHT_RELA and SHT_REL (System V ABI, "Section Header", sh_type). */
  const SHT_RELA: u32 := 4
  const SHT_REL: u32 := 9

  /** int64(off) for a file offset: a Section32 offset always fits, a
      Section64 offset at or above 2^63 becomes negative. */
  function Start(c: Class, off: u64): (s: int)
    ensures s >= 0 ==> s == off
    ensures off < TWO63 ==> s == off
    ensures c == Class64 ==> (s < 0 <==> off >= TWO63)
  {
    if c == Class32 then off else ToInt64(off)
  }

  /** int64(off + size) with the sum taken in the field width: uint32 for
      Section32, uint64 for Section64 (int64(a) + int64(b) wraps like the
      uint64 sum). The loaders pass this end offset where io.NewSectionReader
      expects a length. */
  function EndLimit(c: Class, off: u64, size: u64): (r: int)
    ensures c == Class32 ==> 0 <= r < TWO32
    ensures off + size < (if c == Class32 then TWO32 else TWO63) ==> r == off + size
    ensures r <= off + size
  {
    if c == Class32 then Wrap32(off + size) else ToInt64(Wrap64(off + size))
  }

  // ------------------------------------------------- section header table

  /** The table read of getSections: Shnum native records through a window of
      Shentsize * Shnum bytes, the product wrapped to uint16, from int64(Shoff). */
  predicate TableReadable(c: Class, data: seq<byte>, h: Header)
  {
    Readable(data, Start(c, h.shoff), Wrap16(h.shentsize * h.shnum), 0, h.shnum * SectionSize(c))
  }

  lemma ReadableTableFits(data: seq<byte>, start: int, limit: int, at: nat, count: nat, size: nat)
    requires 0 < size && Readable(data, start, limit, 0, count * size)
    requires start >= 0 ==> start == at
    ensures TableFits(data, at, count, size)
  {
    if count > 0 {
      assert count * size == (count - 1) * size + size;
    }
  }

  function SectionsOf(c: Class, o: ByteOrder, data: seq<byte>, h: Header): (t: seq<SectionHeader>)
    requires TableReadable(c, data, h)
    ensures |t| == h.shnum
  {
    ReadableTableFits(data, Start(c, h.shoff), Wrap16(h.shentsize * h.shnum), h.shoff, h.shnum, SectionSize(c));
    SectionTable(c, o, data, h.shoff, h.shnum)
  }

  // ---------------------------------------------------------- string tables

  /** Reading section s in full, as the string-table reads do: size bytes
      from int64(off) through a window whose length is the end offset. */
  predicate StrTabReadable(c: Class, data: seq<byte>, s: SectionHeader)
  {
    Readable(data, Start(c, s.off), EndLimit(c, s.off, s.size), 0, s.size)
  }

  /** The bytes of section s, as such a read fills them. */
  function SectionBytes(c: Class, data: seq<byte>, s: SectionHeader): (t: seq<byte>)
    requires StrTabReadable(c, data, s)
    ensures |t| == s.size && |t| <= |data|
  {
    if s.size == 0 then [] else Range(data, s.off, s.size)
  }

  /** Every section's sh_name lies inside the section name table. */
  predicate NamesInTable(secs: seq<SectionHeader>, tbl: seq<byte>)
  {
    forall i :: 0 <= i < |secs| ==> secs[i].name <= |tbl|
  }

  /** The section header table and the section name table, as read by
      getSections, or the reason it stops. */
  datatype SectionView = SectionView(sections: seq<SectionHeader>, shstrtab: seq<byte>)

  function LoadSections(c: Class, o: ByteOrder, data: seq<byte>, h: Header): (r: Result<SectionView, Error>)
    ensures r.Ok? ==> |r.value.sections| == h.shnum && h.shstrndx < h.shnum
    ensures r.Ok? ==> NamesInTable(r.value.sections, r.value.shstrtab)
    ensures r.Ok? ==> |r.value.shstrtab| == r.value.sections[h.shstrndx].size <= |data|
    ensures r.Ok? ==> var s := r.value.sections[h.shstrndx];
            s.size > 0 ==> s.off + s.size <= |data| && r.value.shstrtab == data[s.off .. s.off + s.size]
  {
    if !TableReadable(c, data, h) then Err(TruncatedRead)
    else
      var secs := SectionsOf(c, o, data, h);
      if h.shstrndx >= h.shnum then Err(IndexOutOfRange)
      else if !StrTabReadable(c, data, secs[h.shstrndx]) then Err(TruncatedRead)
      else
        var tbl := SectionBytes(c, data, secs[h.shstrndx]);
        if !NamesInTable(secs, tbl) then Err(NameOffsetOutOfRange)
        else Ok(SectionView(secs, tbl))
  }

  /** For a file below 4 GiB the end-offset window never binds: a section
      can be read in full exactly when it lies inside the file. */
  lemma StrTabReadableIff(c: Class, data: seq<byte>, s: SectionHeader)
    requires |data| < TWO32
    ensures StrTabReadable(c, data, s) <==> s.size == 0 || s.off + s.size <= |data|
  {
  }

  /** With the native entry size and a product below 2^16, the uint16
      window is the table itself: it is read exactly when it lies inside the
      file. */
  lemma TableReadableIff(c: Class, data: seq<byte>, h: Header)
    requires |data| < TWO32
    requires h.shentsize == SectionSize(c) && h.shentsize * h.shnum < TWO16
    ensures TableReadable(c, data, h) <==> h.shnum == 0 || h.shoff + h.shnum * SectionSize(c) <= |data|
  {
  }

  /** The uint16 product of Shentsize and Shnum wraps: 1024 native 64-bit
      entries need a 65536-byte window and get an empty one, so a table that
      lies inside the file cannot be read. */
  lemma WrappedTableUnreadable(data: seq<byte>, h: Header)
    requires h.shentsize == 64 && h.shnum == 1024 && h.shoff < TWO32
    ensures !TableReadable(Class64, data, h)
  {
    assert Wrap16(h.shentsize * h.shnum) == 0;
  }

  /** getSections stops at the first of its four checks that fails: the
      table read, Shstrndx inside the table, the name table read, and every
      sh_name inside the name table. */
  lemma LoadSectionsFails(c: Class, o: ByteOrder, data: seq<byte>, h: Header)
    ensures !TableReadable(c, data, h) ==> LoadSections(c, o, data, h) == Err(TruncatedRead)
    ensures TableReadable(c, data, h) && h.shstrndx >= h.shnum ==>
            LoadSections(c, o, data, h) == Err(IndexOutOfRange)
    ensures TableReadable(c, data, h) && h.shstrndx < h.shnum ==>
            var secs := SectionsOf(c, o, data, h);
            (!StrTabReadable(c, data, secs[h.shstrndx]) ==> LoadSections(c, o, data, h) == Err(TruncatedRead)) &&
            (StrTabReadable(c, data, secs[h.shstrndx]) ==>
               (LoadSections(c, o, data, h).Ok? <==> NamesInTable(secs, SectionBytes(c, data, secs[h.shstrndx]))) &&
               (LoadSections(c, o, data, h).Err? ==> LoadSections(c, o, data, h) == Err(NameOffsetOutOfRange)))
  {
  }

  /** A non-empty table of native entries, with no uint16 wrap, that runs
      past the end of the file cannot be read. */
  lemma TableOutsideFails(c: Class, o: ByteOrder, data: seq<byte>, h: Header)
    requires |data| < TWO32
    requires h.shentsize == SectionSize(c) && h.shentsize * h.shnum < TWO16
    requires h.shnum > 0 && h.shoff + h.shnum * SectionSize(c) > |data|
    ensures LoadSections(c, o, data, h) == Err(TruncatedRead)
  {
    TableReadableIff(c, data, h);
    LoadSectionsFails(c, o, data, h);
  }

  /** A file whose section table and name table lie inside it, with
      Shstrndx an index of the table, loads exactly when every sh_name lies
      inside the name table. */
  lemma WellFormedLoads(c: Class, o: ByteOrder, data: seq<byte>, h: Header)
    requires |data| < TWO32
    requires h.shentsize == SectionSize(c) && h.shentsize * h.shnum < TWO16
    requires h.shoff + h.shnum * SectionSize(c) <= |data| && h.shstrndx < h.shnum
    ensures TableReadable(c, data, h)
    ensures var s := SectionsOf(c, o, data, h)[h.shstrndx];
            s.off + s.size <= |data| ==>
            (LoadSections(c, o, data, h).Ok? <==> NamesInTable(SectionsOf(c, o, data, h), SectionBytes(c, data, s)))
  {
    TableReadableIff(c, data, h);
    var s := SectionsOf(c, o, data, h)[h.shstrndx];
    StrTabReadableIff(c, data, s);
    LoadSectionsFails(c, o, data, h);
  }

  // ---------------------------------------------------------- symbol tables

  /** numSymbols: the symbol table's size divided by the native record size,
      truncating a partial last record. */
  function SymCount(c: Class, s: SectionHeader): (n: nat)
    ensures SymbolOffset(c, n) <= s.size < SymbolOffset(c, n) + SymbolSize(c)
  {
    if c == Class32 then s.size / 16 else s.size / 24
  }

  /** Reading symbol k, the k-th record read in sequence through the window
      loadSymbols opens on the symbol table. */
  predicate SymbolReadable(c: Class, data: seq<byte>, s: SectionHeader, k: nat)
  {
    Readable(data, Start(c, s.off), EndLimit(c, s.off, s.size), SymbolOffset(c, k), SymbolSize(c))
  }

  lemma SymbolReadableFits(c: Class, data: seq<byte>, s: SectionHeader, k: nat)
    requires SymbolReadable(c, data, s, k)
    ensures s.off + SymbolOffset(c, k) + SymbolSize(c) <= |data|
  {
  }

  /** Symbol k can be read and its st_name lies inside the string table tbl. */
  predicate SymbolOk(c: Class, o: ByteOrder, data: seq<byte>, s: SectionHeader, tbl: seq<byte>, k: nat)
  {
    SymbolReadable(c, data, s, k) &&
    (SymbolReadableFits(c, data, s, k); NameAt(c, o, data, s.off, k) <= |tbl|)
  }

  predicate SymbolsOk(c: Class, o: ByteOrder, data: seq<byte>, s: SectionHeader, tbl: seq<byte>)
  {
    forall k: nat :: k < SymCount(c, s) ==> SymbolOk(c, o, data, s, tbl, k)
  }

  /** The error of the first symbol from k on that fails: its read runs out
      of bytes, or its name offset lies past the string table. */
  function FirstSymbolError(c: Class, o: ByteOrder, data: seq<byte>, s: SectionHeader, tbl: seq<byte>, k: nat): (e: Option<Error>)
    ensures e.None? <==> forall j: nat :: k <= j < SymCount(c, s) ==> SymbolOk(c, o, data, s, tbl, j)
    ensures e.Some? ==> e.value == TruncatedRead || e.value == NameOffsetOutOfRange
    decreases SymCount(c, s) - k
  {
    if k >= SymCount(c, s) then None
    else if !SymbolReadable(c, data, s, k) then
      assert !SymbolOk(c, o, data, s, tbl, k);
      Some(TruncatedRead)
    else if (SymbolReadableFits(c, data, s, k); NameAt(c, o, data, s.off, k) > |tbl|) then
      assert !SymbolOk(c, o, data, s, tbl, k);
      Some(NameOffsetOutOfRange)
    else FirstSymbolError(c, o, data, s, tbl, k + 1)
  }

  /** Symbols / DynSymbols after the first n rounds of loadSymbols' loop:
      symbol k under key k. */
  function SymbolMap(c: Class, o: ByteOrder, data: seq<byte>, s: SectionHeader, n: nat): (m: map<u32, Symbol>)
    requires forall k: nat :: k < n ==> SymbolReadable(c, data, s, k)
    ensures forall k: u32 :: k in m <==> k < n
  {
    map k: u32 | k < n :: SymbolReadableFits(c, data, s, k); SymbolAt(c, o, data, s.off, k)
  }

  /** Key k of the map holds symbol k, decoded at off + k * recordSize. */
  lemma SymbolMapAt(c: Class, o: ByteOrder, data: seq<byte>, s: SectionHeader, n: nat)
    requires forall k: nat :: k < n ==> SymbolReadable(c, data, s, k)
    ensures forall k: u32 :: k in SymbolMap(c, o, data, s, n) ==>
              SymbolMap(c, o, data, s, n)[k] == (SymbolReadableFits(c, data, s, k); SymbolAt(c, o, data, s.off, k))
  {
  }

  /** A map with keys 0..n that agrees with a map with keys 0..n-1 on
      their common keys is that map with key n added. */
  lemma MapGrow(m0: map<u32, Symbol>, m1: map<u32, Symbol>, n: u32)
    requires forall k: u32 :: k in m0 <==> k < n
    requires forall k: u32 :: k in m1 <==> k <= n
    requires forall k :: k in m0 ==> m1[k] == m0[k]
    ensures m1 == m0[n := m1[n]]
  {
  }

  /** A symbol that can be read from a file below 4 GiB has a uint32 index. */
  lemma SymbolIndexFits(c: Class, data: seq<byte>, s: SectionHeader, k: nat)
    requires SymbolReadable(c, data, s, k) && |data| < TWO32
    ensures k < TWO32
  {
    SymbolReadableFits(c, data, s, k);
    assert k <= SymbolOffset(c, k);
  }

  /** A symbol that can be read and named is not the first failure. */
  lemma FirstSymbolErrorNext(c: Class, o: ByteOrder, data: seq<byte>, s: SectionHeader, tbl: seq<byte>, k: nat)
    requires k < SymCount(c, s) && SymbolReadable(c, data, s, k)
    requires (SymbolReadableFits(c, data, s, k); NameAt(c, o, data, s.off, k) <= |tbl|)
    ensures FirstSymbolError(c, o, data, s, tbl, k) == FirstSymbolError(c, o, data, s, tbl, k + 1)
  {
  }

  /** One more round of the loop adds symbol n under key n. */
  lemma SymbolMapNext(c: Class, o: ByteOrder, data: seq<byte>, s: SectionHeader, n: nat)
    requires forall k: nat :: k <= n ==> SymbolReadable(c, data, s, k)
    requires n < TWO32
    ensures SymbolReadable(c, data, s, n)
    ensures SymbolMap(c, o, data, s, n + 1)
         == SymbolMap(c, o, data, s, n)[n as u32 := (SymbolReadableFits(c, data, s, n); SymbolAt(c, o, data, s.off, n))]
  {
    assert SymbolReadable(c, data, s, n);
    assert forall k: nat :: k < n ==> SymbolReadable(c, data, s, k);
    var m0, m1 := SymbolMap(c, o, data, s, n), SymbolMap(c, o, data, s, n + 1);
    MapGrow(m0, m1, n as u32);
  }

  /** The name offsets of the symbols in m. */
  function NameKeys(m: map<u32, Symbol>): (ks: set<u32>)
    ensures forall n :: n in ks <==> exists k :: k in m && m[k].name == n
  {
    set k | k in m :: m[k].name
  }

  /** SymbolsName / DynSymbolsName: keyed by st_name, not by symbol index, so
      symbols that share a name offset share one entry. */
  function NameMap(m: map<u32, Symbol>, tbl: seq<byte>): (names: map<u32, string>)
    requires forall k :: k in m ==> m[k].name <= |tbl|
    ensures names.Keys == NameKeys(m)
    ensures forall n :: n in names ==> names[n] == StringAt(tbl, n)
  {
    map n | n in NameKeys(m) :: StringAt(tbl, n)
  }

  /** Storing one more symbol, under a new key, sets the name of its
      st_name and leaves the other names alone. */
  lemma NameMapInsert(m: map<u32, Symbol>, k: u32, sym: Symbol, tbl: seq<byte>)
    requires forall j :: j in m ==> m[j].name <= |tbl|
    requires k !in m && sym.name <= |tbl|
    ensures NameMap(m[k := sym], tbl) == NameMap(m, tbl)[sym.name := StringAt(tbl, sym.name)]
  {
    var m' := m[k := sym];
    forall n ensures n in NameKeys(m') <==> n in NameKeys(m) || n == sym.name {
      if n in NameKeys(m) {
        var j :| j in m && m[j].name == n;
        assert m'[j] == m[j];
      }
      assert m'[k] == sym;
    }
    assert NameKeys(m') == NameKeys(m) + {sym.name};
  }

  /** The symbol and name maps of one symbol table. */
  datatype SymbolTable = SymbolTable(symbols: map<u32, Symbol>, names: map<u32, string>)

  /** The symbols of table s read in order, each name looked up in the
      string table tbl, or the error of the first symbol that fails. */
  function SymbolTableOf(c: Class, o: ByteOrder, data: seq<byte>, s: SectionHeader, tbl: seq<byte>): (r: Result<SymbolTable, Error>)
    ensures r.Err? <==> FirstSymbolError(c, o, data, s, tbl, 0).Some?
    ensures r.Ok? ==> forall k: u32 :: k in r.value.symbols <==> k < SymCount(c, s)
    ensures r.Ok? ==> r.value.names.Keys == NameKeys(r.value.symbols)
  {
    var scan := FirstSymbolError(c, o, data, s, tbl, 0);
    if scan.Some? then Err(scan.value)
    else
      assert forall k: nat :: k < SymCount(c, s) ==> SymbolReadable(c, data, s, k) by {
        forall k: nat | k < SymCount(c, s) ensures SymbolReadable(c, data, s, k) {
          assert SymbolOk(c, o, data, s, tbl, k);
        }
      }
      var m := SymbolMap(c, o, data, s, SymCount(c, s));
      assert forall k :: k in m ==> m[k].name <= |tbl| by {
        forall k | k in m ensures m[k].name <= |tbl| {
          assert SymbolOk(c, o, data, s, tbl, k);
          SymbolNameAt(c, o, data, s.off, k as nat);
        }
      }
      Ok(SymbolTable(m, NameMap(m, tbl)))
  }

  /** On success, key k holds symbol k, decoded at off + k * recordSize. */
  lemma SymbolTableEntries(c: Class, o: ByteOrder, data: seq<byte>, s: SectionHeader, tbl: seq<byte>)
    ensures var r := SymbolTableOf(c, o, data, s, tbl);
            r.Ok? ==> forall k: u32 :: k in r.value.symbols ==>
              SymbolReadable(c, data, s, k) &&
              r.value.symbols[k] == (SymbolReadableFits(c, data, s, k); SymbolAt(c, o, data, s.off, k))
  {
    var r := SymbolTableOf(c, o, data, s, tbl);
    if r.Ok? {
      var n := SymCount(c, s);
      assert forall k: nat :: k < n ==> SymbolReadable(c, data, s, k) by {
        forall k: nat | k < n ensures SymbolReadable(c, data, s, k) {
          assert SymbolOk(c, o, data, s, tbl, k);
        }
      }
      SymbolMapAt(c, o, data, s, n);
    }
  }

  /** loadSymbols for the symbol table s and the string table str: the
      string table is read first, then the symbols. */
  function LoadSymbolTable(c: Class, o: ByteOrder, data: seq<byte>, s: SectionHeader, str: SectionHeader): (r: Result<SymbolTable, Error>)
    ensures !StrTabReadable(c, data, str) ==> r == Err(TruncatedRead)
    ensures StrTabReadable(c, data, str) ==>
      (r.Err? <==> FirstSymbolError(c, o, data, s, SectionBytes(c, data, str), 0).Some?)
    ensures r.Ok? ==> forall k: u32 :: k in r.value.symbols <==> k < SymCount(c, s)
    ensures r.Ok? ==> r.value.names.Keys == NameKeys(r.value.symbols)
  {
    if !StrTabReadable(c, data, str) then Err(TruncatedRead)
    else SymbolTableOf(c, o, data, s, SectionBytes(c, data, str))
  }

  // ---------------------------------------------------- relocation sections

  /** getRelocations reads the sections of type SHT_REL and SHT_RELA. */
  predicate IsRelSection(s: SectionHeader)
  {
    s.shType == SHT_REL || s.shType == SHT_RELA
  }

  function KindOf(s: SectionHeader): RelKind
    requires IsRelSection(s)
  {
    if s.shType == SHT_REL then Rel else Rela
  }

  /** numRels: the section size divided by the native record size. */
  function RelCount(c: Class, s: SectionHeader): (n: nat)
    requires IsRelSection(s)
    ensures n * RelocSize(c, KindOf(s)) <= s.size < (n + 1) * RelocSize(c, KindOf(s))
  {
    s.size / RelocSize(c, KindOf(s))
  }

  /** The length of the relocation reader's window: the section size for
      Section32, the end offset int64(off) + int64(size) for Section64. */
  function RelLimit(c: Class, s: SectionHeader): int
  {
    if c == Class32 then s.size else EndLimit(c, s.off, s.size)
  }

  /** Reading the numRels records of relocation section s. */
  predicate RelReadable(c: Class, data: seq<byte>, s: SectionHeader)
    requires IsRelSection(s)
  {
    Readable(data, Start(c, s.off), RelLimit(c, s), 0, RelCount(c, s) * RelocSize(c, KindOf(s)))
  }

  /** One entry of Rels: the section's records, all Rel or all Rela. */
  datatype RelTable = RelTable(kind: RelKind, entries: seq<Reloc>)

  /** The entries read from relocation section s. */
  function RelTableOf(c: Class, o: ByteOrder, data: seq<byte>, s: SectionHeader): (t: RelTable)
    requires IsRelSection(s) && RelReadable(c, data, s)
    ensures t.kind == KindOf(s) && |t.entries| == RelCount(c, s)
    ensures c == Class32 ==> forall e :: e in t.entries ==> e.info < TWO32
  {
    var rk := KindOf(s);
    ReadableTableFits(data, Start(c, s.off), RelLimit(c, s), s.off, RelCount(c, s), RelocSize(c, rk));
    RelTable(rk, RelocTable(c, rk, o, data, s.off, RelCount(c, s)))
  }

  /** For a file below 4 GiB neither window binds: a relocation section is
      read exactly when its whole records lie inside the file. */
  lemma RelReadableIff(c: Class, data: seq<byte>, s: SectionHeader)
    requires |data| < TWO32 && IsRelSection(s)
    ensures RelReadable(c, data, s) <==>
      RelCount(c, s) == 0 || s.off + RelCount(c, s) * RelocSize(c, KindOf(s)) <= |data|
  {
    var n, sz := RelCount(c, s), RelocSize(c, KindOf(s));
    var len := n * sz;
    assert sz > 0 && (n + 1) * sz == len + sz;
    if n > 0 {
      assert len >= sz;
      if s.off + len <= |data| {
        assert s.size < len + sz;
        assert Start(c, s.off) == s.off && s.off + s.size < TWO32 + 24;
        assert len <= RelLimit(c, s);
      }
    }
  }
}
