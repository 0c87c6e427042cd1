/** The first version of the reader (go-readelf.go): the same identification
    test, class and byte-order selection and header decoding as the current
    one, but without the machine field, and a getSections whose name lookup
    is written out inline as a nested loop instead of calling
    getSectionName. */
module GoReadelf {
  import opened Bytes
  import opened Layout
  import opened StrTab
  import opened Wrappers
  import opened Faults
  import opened Ident
  import opened Tables

  /** is_elf: the four magic bytes, compared one by one. It accepts exactly
      what isElf accepts. */
  function IsElfLegacy(magic: seq<byte>): (r: bool)
    requires |magic| >= 4
    ensures r <==> magic[..4] == ELFMAG
    ensures r == IsElf(magic)
  {
    !(magic[0] != 0x7f || magic[1] != 'E' as int || magic[2] != 'L' as int || magic[3] != 'F' as int)
  }

  /** The name loop of GetSections: for each section, SecStrEnd runs from
      its sh_name to the first NUL or the end of the table, and the bytes in
      between become its name. An sh_name past the end of the table makes
      the slice expression panic, hence the precondition. */
  method SectionNames(secs: seq<SectionHeader>, tbl: seq<byte>) returns (names: seq<string>)
    requires NamesInTable(secs, tbl)
    ensures |names| == |secs|
    ensures forall i :: 0 <= i < |secs| ==> names[i] == StringAt(tbl, secs[i].name)
  {
    names := seq(|secs|, _ => "");
    var i := 0;
    while i < |secs|
      invariant 0 <= i <= |secs| && |names| == |secs|
      invariant forall j :: 0 <= j < i ==> names[j] == StringAt(tbl, secs[j].name)
    {
      var start := secs[i].name;
      var end := start;
      while end < |tbl|
        invariant start <= end <= |tbl|
        invariant forall j :: start <= j < end ==> tbl[j] != 0
      {
        if tbl[end] == 0 {
          break;
        }
        end := end + 1;
      }
      NulEndUnique(tbl, start, end);
      names := names[i := ToString(tbl[start .. end])];
      i := i + 1;
    }
  }

  /** The elf_File record: the open file, its identification bytes, the
      class and byte order, the decoded header and the section table with
      its names. */
  class LegacyElfFile {
    const data: seq<byte>
    const ident: seq<byte>
    var arch: Option<Class>
    var order: Option<ByteOrder>
    var hdr: Option<Header>
    var sections: seq<SectionHeader>
    var sectionNames: seq<string>

    /** The file lies below 4 GiB; the class, once set, is the one e_ident
        names; a decoded header comes with its class and byte order; every
        section has a name. */
    ghost predicate Valid()
      reads this
    {
      |data| < TWO32 && ident == IdentOf(data) &&
      (arch.Some? ==> arch == ClassOf(ident[EI_CLASS])) &&
      (hdr.Some? ==> arch.Some? && order.Some?) &&
      |sectionNames| == |sections|
    }

    /** os.Open followed by Fh.Read(Ident[:16]). */
    constructor Open(file: seq<byte>)
      requires |file| < TWO32
      ensures Valid() && data == file
      ensures arch == None && order == None && hdr == None
      ensures sections == [] && sectionNames == []
    {
      data := file;
      ident := IdentOf(file);
      arch, order, hdr := None, None, None;
      sections, sectionNames := [], [];
    }

    /** SetArch: class byte 2 selects the 64-bit header, 1 the 32-bit one,
        any other value exits. */
    method SetArch() returns (err: Option<Error>)
      requires Valid()
      modifies this`arch, this`hdr
      ensures Valid()
      ensures err.None? <==> ident[EI_CLASS] == ELFCLASS32 || ident[EI_CLASS] == ELFCLASS64
      ensures err.None? ==> arch == ClassOf(ident[EI_CLASS]) && hdr == None
      ensures err.Some? ==> err == Some(InvalidClass) && arch == old(arch) && hdr == old(hdr)
    {
      var c := ClassOf(ident[EI_CLASS]);
      if c.None? {
        err := Some(InvalidClass);
        return;
      }
      arch, hdr := c, None;
      err := None;
    }

    /** MapHeader: data byte 1 selects little-endian, 2 big-endian, any other
        value only warns; then the header is decoded from the start of the
        file. A file shorter than the header, or a missing byte order, makes
        binary.Read fail. */
    method MapHeader() returns (warned: bool, err: Option<Error>)
      requires Valid() && arch.Some?
      modifies this`order, this`hdr
      ensures Valid()
      ensures warned <==> ident[EI_DATA] != ELFDATA2LSB && ident[EI_DATA] != ELFDATA2MSB
      ensures order == if warned then old(order) else OrderOf(ident[EI_DATA])
      ensures err == if |data| < HeaderSize(arch.value) then Some(TruncatedRead)
                     else if order.None? then Some(NilByteOrder) else None
      ensures err.None? ==>
        hdr == Some(DecodeHeader(arch.value, order.value, data[..HeaderSize(arch.value)])) &&
        hdr.value.ident == ident
      ensures err.Some? ==> hdr == old(hdr)
    {
      var o := OrderOf(ident[EI_DATA]);
      warned := o.None?;
      if !warned {
        order := o;
      }
      var c := arch.value;
      if |data| < HeaderSize(c) {
        err := Some(TruncatedRead);
        return;
      }
      if order.None? {
        err := Some(NilByteOrder);
        return;
      }
      var h := DecodeHeader(c, order.value, data[..HeaderSize(c)]);
      assert h.ident == ident;
      hdr := Some(h);
      err := None;
    }

    /** GetSections: the same table and string-table reads as getSections;
        the name of section i is then cut from the string table by scanning
        from its sh_name to the first NUL or the end of the table. The names
        are exactly the ones getSectionName returns. */
    method GetSections() returns (err: Option<Error>)
      requires Valid() && hdr.Some?
      modifies this`sections, this`sectionNames
      ensures Valid()
      ensures var r := LoadSections(arch.value, order.value, data, hdr.value);
        (err.None? <==> r.Ok?) &&
        (r.Err? ==> err == Some(r.error) && sections == old(sections) && sectionNames == old(sectionNames)) &&
        (r.Ok? ==> sections == r.value.sections && |sectionNames| == hdr.value.shnum &&
                   forall i :: 0 <= i < |sections| ==> sectionNames[i] == StringAt(r.value.shstrtab, sections[i].name))
    {
      var r := LoadSections(arch.value, order.value, data, hdr.value);
      if r.Err? {
        err := Some(r.error);
        return;
      }
      var secs, tbl := r.value.sections, r.value.shstrtab;
      var names := SectionNames(secs, tbl);
      sections, sectionNames := secs, names;
      err := None;
    }
  }
}
