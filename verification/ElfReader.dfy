/** Reading an ELF object, and what comes back of a written one: `ElfFile.read` of tools/elffile.py. */
module ElfReader {
  import opened Bytes
  import opened ElfCodec
  import opened ElfFile
  import opened ElfStrings
  import opened RelTypes
  import opened Wrappers

  /** What `ElfFile.read` fills in. */
  datatype Image = Image(
    header: FileHeader, names: seq<string>, strtabndx: nat, strs: seq<string>, sections: seq<ElfSection>)

  /** `get_at_index`; `None` is the index error. */
  function NameAt(names: seq<string>, i: nat): Option<string> {
    if i == 0 then Some("") else if i <= |names| then Some(names[i - 1]) else None
  }

  /** The first section of that name, from number `i` on. */
  function FindName(names: seq<string>, shnum: int, name: string, i: nat): Option<nat>
    decreases shnum - i
  {
    if i >= shnum then None
    else
      match NameAt(names, i)
      case None => None
      case Some(n) => if n == name then Some(i) else FindName(names, shnum, name, i + 1)
  }

  function HeaderAt(data: seq<Byte>, fh: FileHeader, i: nat): Option<SectionHeader>
    requires fh.shoff >= 0 && fh.shentsize >= 0
  {
    ParseHeader(data, fh.shoff + i * fh.shentsize)
  }

  function DataOf(data: seq<Byte>, h: SectionHeader): seq<Byte> {
    if h.kind != SHT_NOBITS && h.offset >= 0 && h.size >= 0 then Clip(data, h.offset, h.offset + h.size) else []
  }

  /** `_read_section` */
  function SectionAt(data: seq<Byte>, fh: FileHeader, i: nat): Option<(SectionHeader, seq<Byte>)>
    requires fh.shoff >= 0 && fh.shentsize >= 0
  {
    match HeaderAt(data, fh, i)
    case None => None
    case Some(h) => Some((h, DataOf(data, h)))
  }

  /** `ElfStrtab.read` */
  function LoadStrings(h: SectionHeader, bytes: seq<Byte>): Option<seq<string>> {
    if |bytes| != h.size then None else ReadStrings(bytes)
  }

  function StringsAt(data: seq<Byte>, fh: FileHeader, i: nat): Option<seq<string>>
    requires fh.shoff >= 0 && fh.shentsize >= 0
  {
    match SectionAt(data, fh, i)
    case None => None
    case Some(s) => LoadStrings(s.0, s.1)
  }

  function ParseSymbols(bytes: seq<Byte>, pos: nat, strs: seq<string>): Option<seq<Entry>>
    decreases |bytes| - pos
  {
    if pos >= |bytes| then Some([])
    else
      match ParseSymbol(bytes, pos)
      case None => None
      case Some(p) =>
        match ParseSymbols(bytes, pos + 16, strs)
        case None => None
        case Some(rest) => Some([Entry(-1, p.1.(name := AtOffset(strs, p.0)))] + rest)
  }

  function ParseRelas(bytes: seq<Byte>, pos: nat): Option<seq<Rela>>
    decreases |bytes| - pos
  {
    if pos >= |bytes| then Some([])
    else
      match ParseRela(bytes, pos)
      case None => None
      case Some(r) =>
        match ParseRelas(bytes, pos + 12)
        case None => None
        case Some(rest) => Some([r] + rest)
  }

  function LoadBody(h: SectionHeader, bytes: seq<Byte>, strs: seq<string>): Option<Body> {
    if h.kind !in {SHT_NULL, SHT_PROGBITS, SHT_SYMTAB, SHT_STRTAB, SHT_RELA} then Some(Raw(bytes))
    else if |bytes| != h.size then None
    else if h.kind == SHT_SYMTAB then
      match ParseSymbols(bytes, 16, strs)
      case None => None
      case Some(entries) => Some(Symbols(entries))
    else if h.kind == SHT_STRTAB then
      match ReadStrings(bytes)
      case None => None
      case Some(ss) => Some(Table(ss))
    else if h.kind == SHT_RELA then
      match ParseRelas(bytes, 0)
      case None => None
      case Some(relas) => Some(Relas(relas))
    else Some(Raw(bytes))
  }

  /** The constructor of ElfSection resets the name offset of the header it is given; the other classes
      set their header afterwards. */
  function LoadedHeader(h: SectionHeader): SectionHeader {
    if h.kind in {SHT_SYMTAB, SHT_STRTAB, SHT_RELA} then h else h.(name := -1)
  }

  function LoadSection(name: string, h: SectionHeader, bytes: seq<Byte>, strs: seq<string>): Option<ElfSection> {
    match LoadBody(h, bytes, strs)
    case None => None
    case Some(body) => Some(ElfSection(name, LoadedHeader(h), body))
  }

  function SectionNamed(data: seq<Byte>, fh: FileHeader, names: seq<string>, strs: seq<string>, i: nat)
    : Option<ElfSection>
    requires fh.shoff >= 0 && fh.shentsize >= 0
  {
    match NameAt(names, i)
    case None => None
    case Some(name) =>
      match SectionAt(data, fh, i)
      case None => None
      case Some(s) => LoadSection(name, s.0, s.1, strs)
  }

  /** The sections from number `i` on. */
  function LoadSections(data: seq<Byte>, fh: FileHeader, names: seq<string>, strs: seq<string>, i: nat)
    : Option<seq<ElfSection>>
    requires fh.shoff >= 0 && fh.shentsize >= 0
    decreases fh.shnum - i
  {
    if i >= fh.shnum then Some([])
    else
      match SectionNamed(data, fh, names, strs, i)
      case None => None
      case Some(sec) =>
        match LoadSections(data, fh, names, strs, i + 1)
        case None => None
        case Some(rest) => Some([sec] + rest)
  }

  /** `_read_common`: the header, the section names, and the symbol names */
  function ReadCommon(data: seq<Byte>): Option<(FileHeader, seq<string>, nat, seq<string>)> {
    match ParseFileHeader(data)
    case None => None
    case Some(fh) =>
      match StringsAt(data, fh, fh.shstrndx)
      case None => None
      case Some(names) =>
        match FindName(names, fh.shnum, STRTAB, 0)
        case None => None
        case Some(ndx) =>
          match StringsAt(data, fh, ndx)
          case None => None
          case Some(strs) => Some((fh, names, ndx, strs))
  }

  function ReadElf(data: seq<Byte>): Option<Image> {
    match ReadCommon(data)
    case None => None
    case Some(c) =>
      match Prepend([NullSection()], LoadSections(data, c.0, c.1, c.3, 1))
      case None => None
      case Some(secs) => Some(Image(c.0, c.1, c.2, c.3, secs))
  }

  function Prepend(done: seq<ElfSection>, rest: Option<seq<ElfSection>>): Option<seq<ElfSection>> {
    match rest
    case None => None
    case Some(r) => Some(done + r)
  }

  lemma LoadStep(data: seq<Byte>, fh: FileHeader, names: seq<string>, strs: seq<string>, i: nat, done: seq<ElfSection>)
    requires fh.shoff >= 0 && fh.shentsize >= 0 && i < fh.shnum
    ensures var sec := SectionNamed(data, fh, names, strs, i);
            Prepend(done, LoadSections(data, fh, names, strs, i)) ==
            if sec.None? then None else Prepend(done + [sec.value], LoadSections(data, fh, names, strs, i + 1))
  {
    var sec, rest := SectionNamed(data, fh, names, strs, i), LoadSections(data, fh, names, strs, i + 1);
    if sec.Some? && rest.Some? {
      assert done + ([sec.value] + rest.value) == done + [sec.value] + rest.value;
    }
  }

  /** The loop of `ElfFile.read` */
  method ReadSections(data: seq<Byte>, fh: FileHeader, names: seq<string>, strs: seq<string>)
    returns (sections: Option<seq<ElfSection>>)
    requires fh.shoff >= 0 && fh.shentsize >= 0
    ensures sections == Prepend([NullSection()], LoadSections(data, fh, names, strs, 1))
  {
    var secs, i := [NullSection()], 1;
    while i < fh.shnum
      invariant i >= 1
      invariant Prepend(secs, LoadSections(data, fh, names, strs, i))
             == Prepend([NullSection()], LoadSections(data, fh, names, strs, 1))
      decreases fh.shnum - i
    {
      LoadStep(data, fh, names, strs, i, secs);
      var sec := SectionNamed(data, fh, names, strs, i);
      if sec.None? {
        return None;
      }
      secs := secs + [sec.value];
      i := i + 1;
    }
    LoadEnds(data, fh, names, strs, i, secs);
    return Some(secs);
  }

  lemma LoadEnds(data: seq<Byte>, fh: FileHeader, names: seq<string>, strs: seq<string>, i: nat, done: seq<ElfSection>)
    requires fh.shoff >= 0 && fh.shentsize >= 0 && i >= fh.shnum
    ensures Prepend(done, LoadSections(data, fh, names, strs, i)) == Some(done)
  {
    assert done + [] == done;
  }

  /** `ElfFile.read`; `None` stands for its exceptions. */
  method Read(data: seq<Byte>) returns (image: Option<Image>)
    ensures image == ReadElf(data)
  {
    var common := ReadCommon(data);
    if common.None? {
      return None;
    }
    var (fh, names, ndx, strs) := common.value;
    var sections := ReadSections(data, fh, names, strs);
    if sections.None? {
      return None;
    }
    return Some(Image(fh, names, ndx, strs, sections.value));
  }

  /** `read_symtab`: the first section named .symtab, which must be a symbol table */
  function ReadSymtab(data: seq<Byte>): Option<seq<Entry>> {
    match ReadCommon(data)
    case None => None
    case Some(c) =>
      match FindName(c.1, c.0.shnum, ".symtab", 0)
      case None => None
      case Some(ndx) =>
        match SectionAt(data, c.0, ndx)
        case None => None
        case Some(s) =>
          if s.0.kind != SHT_SYMTAB || |s.1| != s.0.size then None else ParseSymbols(s.1, 16, c.3)
  }
}
