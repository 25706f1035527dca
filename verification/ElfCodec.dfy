/** The records of an ELF object and their big-endian images: `ElfHeader`, `ElfSectionHeader`, `ElfSymbol` and
    `ElfRela` of tools/elffile.py. */
module ElfCodec {
  import opened Bytes
  import opened RelTypes
  import opened Wrappers

  /** A value as a 32-bit word; negative values in two's complement. */
  function Word(n: int): U32 {
    n % 0x1_0000_0000
  }

  function Half(n: int): U16 {
    n % 0x1_0000
  }

  predicate IsWord(n: int) {
    0 <= n < 0x1_0000_0000
  }

  predicate IsHalf(n: int) {
    0 <= n < 0x1_0000
  }

  function PackHalves(ns: seq<U16>): (s: seq<Byte>)
    ensures |s| == 2 * |ns|
  {
    if ns == [] then [] else Pack16(ns[0]) + PackHalves(ns[1..])
  }

  lemma {:induction false} GetHalfAt(file: seq<Byte>, pos: nat, ns: seq<U16>, i: nat)
    requires At(file, pos, PackHalves(ns)) && i < |ns|
    ensures Get16(file, pos + 2 * i) == ns[i]
    decreases |ns|
  {
    AtSplit(file, pos, Pack16(ns[0]), PackHalves(ns[1..]));
    if i == 0 {
      Get16At(file, pos, ns[0]);
    } else {
      GetHalfAt(file, pos + 2, ns[1..], i - 1);
    }
  }

  // ----- section headers -----

  const SHT_NULL: int := 0
  const SHT_PROGBITS: int := 1
  const SHT_SYMTAB: int := 2
  const SHT_STRTAB: int := 3
  const SHT_RELA: int := 4
  const SHT_NOBITS: int := 8

  /** The members of the enumeration SHT. */
  predicate KnownSection(kind: int) {
    0 <= kind <= 11 || 14 <= kind <= 18
    || kind in {0x6000_0000, 0x6fff_ffff, 0x7000_0000, 0x7fff_ffff, 0x8000_0000, 0xca2a_82c2, 0xffff_ffff}
  }

  /** Fields hold -1 until they are set. */
  datatype SectionHeader = SectionHeader(
    name: int, kind: int, flags: int, addr: int, offset: int,
    size: int, link: int, info: int, align: int, entsize: int)

  function HeaderWords(h: SectionHeader): (ws: seq<U32>)
    ensures |ws| == 10
  {
    [Word(h.name), Word(h.kind), Word(h.flags), Word(h.addr), Word(h.offset),
     Word(h.size), Word(h.link), Word(h.info), Word(h.align), Word(h.entsize)]
  }

  function PackHeader(h: SectionHeader): (s: seq<Byte>)
    ensures |s| == 40
  {
    PackWords(HeaderWords(h))
  }

  predicate HeaderFits(h: SectionHeader) {
    && IsWord(h.name) && KnownSection(h.kind) && IsWord(h.flags) && IsWord(h.addr) && IsWord(h.offset)
    && IsWord(h.size) && IsWord(h.link) && IsWord(h.info) && IsWord(h.align) && IsWord(h.entsize)
  }

  /** `ElfSectionHeader.read`; `None` when the data ends early or the type is not in the enumeration. */
  function ParseHeader(data: seq<Byte>, pos: nat): Option<SectionHeader> {
    if pos + 40 > |data| || !KnownSection(Get32(data, pos + 4)) then None
    else
      Some(SectionHeader(Get32(data, pos), Get32(data, pos + 4), Get32(data, pos + 8), Get32(data, pos + 12),
                         Get32(data, pos + 16), Get32(data, pos + 20), Get32(data, pos + 24), Get32(data, pos + 28),
                         Get32(data, pos + 32), Get32(data, pos + 36)))
  }

  lemma FiveWords(data: seq<Byte>, pos: nat, ws: seq<U32>)
    requires |ws| == 5 && At(data, pos, PackWords(ws))
    ensures Get32(data, pos) == ws[0] && Get32(data, pos + 4) == ws[1] && Get32(data, pos + 8) == ws[2]
    ensures Get32(data, pos + 12) == ws[3] && Get32(data, pos + 16) == ws[4]
  {
    GetWordAt(data, pos, ws, 0);
    GetWordAt(data, pos, ws, 1);
    GetWordAt(data, pos, ws, 2);
    GetWordAt(data, pos, ws, 3);
    GetWordAt(data, pos, ws, 4);
  }

  lemma HeaderReadsBack(data: seq<Byte>, pos: nat, h: SectionHeader)
    requires At(data, pos, PackHeader(h)) && HeaderFits(h)
    ensures ParseHeader(data, pos) == Some(h)
  {
    var ws: seq<U32> := HeaderWords(h);
    WordIs(data, pos, ws, 0, pos);
    WordIs(data, pos, ws, 1, pos + 4);
    WordIs(data, pos, ws, 2, pos + 8);
    WordIs(data, pos, ws, 3, pos + 12);
    WordIs(data, pos, ws, 4, pos + 16);
    WordIs(data, pos, ws, 5, pos + 20);
    WordIs(data, pos, ws, 6, pos + 24);
    WordIs(data, pos, ws, 7, pos + 28);
    WordIs(data, pos, ws, 8, pos + 32);
    WordIs(data, pos, ws, 9, pos + 36);
    HeaderWordsAre(h);
    HeaderFromWords(data, pos, h);
  }

  lemma HeaderWordsAre(h: SectionHeader)
    requires HeaderFits(h)
    ensures var ws := HeaderWords(h);
            && ws[0] == h.name && ws[1] == h.kind && ws[2] == h.flags && ws[3] == h.addr && ws[4] == h.offset
            && ws[5] == h.size && ws[6] == h.link && ws[7] == h.info && ws[8] == h.align && ws[9] == h.entsize
  {
  }

  lemma HeaderFromWords(data: seq<Byte>, pos: nat, h: SectionHeader)
    requires HeaderFits(h) && pos + 40 <= |data|
    requires Get32(data, pos) == h.name && Get32(data, pos + 4) == h.kind && Get32(data, pos + 8) == h.flags
    requires Get32(data, pos + 12) == h.addr && Get32(data, pos + 16) == h.offset && Get32(data, pos + 20) == h.size
    requires Get32(data, pos + 24) == h.link && Get32(data, pos + 28) == h.info && Get32(data, pos + 32) == h.align
    requires Get32(data, pos + 36) == h.entsize
    ensures ParseHeader(data, pos) == Some(h)
  {
  }

  // ----- the file header -----

  predicate KnownFile(kind: int) {
    0 <= kind <= 4
  }

  /** The members of the enumeration EM. */
  predicate KnownMachine(machine: int) {
    0 <= machine <= 5 || 7 <= machine <= 10 || machine == 15 || 17 <= machine <= 22 || 36 <= machine <= 100
  }

  const IDENT: seq<Byte> := [0x7F, 0x45, 0x4C, 0x46, 1, 2, 1, 0, 0, 0, 0, 0, 0, 0, 0, 0]

  datatype FileHeader = FileHeader(
    ident: seq<Byte>, kind: int, machine: int, version: int, entry: int, phoff: int, shoff: int, flags: int,
    ehsize: int, phentsize: int, phnum: int, shentsize: int, shnum: int, shstrndx: int)

  function FileHeaderWords(h: FileHeader): (ws: seq<U32>)
    ensures |ws| == 5
  {
    [Word(h.version), Word(h.entry), Word(h.phoff), Word(h.shoff), Word(h.flags)]
  }

  function FileHeaderHalves(h: FileHeader): (ns: seq<U16>)
    ensures |ns| == 6
  {
    [Half(h.ehsize), Half(h.phentsize), Half(h.phnum), Half(h.shentsize), Half(h.shnum), Half(h.shstrndx)]
  }

  function PackFileHeader(h: FileHeader): (s: seq<Byte>)
    requires |h.ident| == 16
    ensures |s| == 52
  {
    h.ident + (PackHalves([Half(h.kind), Half(h.machine)])
               + (PackWords(FileHeaderWords(h)) + PackHalves(FileHeaderHalves(h))))
  }

  predicate FileHeaderFits(h: FileHeader) {
    && |h.ident| == 16 && KnownFile(h.kind) && KnownMachine(h.machine)
    && IsWord(h.version) && IsWord(h.entry) && IsWord(h.phoff) && IsWord(h.shoff) && IsWord(h.flags)
    && IsHalf(h.ehsize) && IsHalf(h.phentsize) && IsHalf(h.phnum) && IsHalf(h.shentsize)
    && IsHalf(h.shnum) && IsHalf(h.shstrndx)
  }

  /** `ElfHeader.read` at offset 0 */
  function ParseFileHeader(data: seq<Byte>): Option<FileHeader> {
    if |data| < 52 || !KnownFile(Get16(data, 16)) || !KnownMachine(Get16(data, 18)) then None
    else
      Some(FileHeader(data[..16], Get16(data, 16), Get16(data, 18), Get32(data, 20), Get32(data, 24),
                      Get32(data, 28), Get32(data, 32), Get32(data, 36), Get16(data, 40), Get16(data, 42),
                      Get16(data, 44), Get16(data, 46), Get16(data, 48), Get16(data, 50)))
  }

  lemma SixHalves(data: seq<Byte>, pos: nat, ns: seq<U16>)
    requires |ns| == 6 && At(data, pos, PackHalves(ns))
    ensures Get16(data, pos) == ns[0] && Get16(data, pos + 2) == ns[1] && Get16(data, pos + 4) == ns[2]
    ensures Get16(data, pos + 6) == ns[3] && Get16(data, pos + 8) == ns[4] && Get16(data, pos + 10) == ns[5]
  {
    GetHalfAt(data, pos, ns, 0);
    GetHalfAt(data, pos, ns, 1);
    GetHalfAt(data, pos, ns, 2);
    GetHalfAt(data, pos, ns, 3);
    GetHalfAt(data, pos, ns, 4);
    GetHalfAt(data, pos, ns, 5);
  }

  lemma FileHeaderParts(data: seq<Byte>, h: FileHeader)
    requires FileHeaderFits(h) && At(data, 0, PackFileHeader(h))
    ensures At(data, 0, h.ident) && At(data, 16, PackHalves([Half(h.kind), Half(h.machine)]))
    ensures At(data, 20, PackWords(FileHeaderWords(h))) && At(data, 40, PackHalves(FileHeaderHalves(h)))
  {
    var ws, hs := PackWords(FileHeaderWords(h)), PackHalves(FileHeaderHalves(h));
    var two := PackHalves([Half(h.kind), Half(h.machine)]);
    AtSplit(data, 0, h.ident, two + (ws + hs));
    AtSplit(data, 16, two, ws + hs);
    AtSplit(data, 20, ws, hs);
  }

  lemma FileHeaderWordsBack(data: seq<Byte>, h: FileHeader)
    requires FileHeaderFits(h) && At(data, 20, PackWords(FileHeaderWords(h)))
    ensures Get32(data, 20) == h.version && Get32(data, 24) == h.entry && Get32(data, 28) == h.phoff
    ensures Get32(data, 32) == h.shoff && Get32(data, 36) == h.flags
  {
    FiveWords(data, 20, FileHeaderWords(h));
  }

  lemma FileHeaderHalvesBack(data: seq<Byte>, h: FileHeader)
    requires FileHeaderFits(h) && At(data, 40, PackHalves(FileHeaderHalves(h)))
    requires At(data, 16, PackHalves([Half(h.kind), Half(h.machine)]))
    ensures Get16(data, 16) == h.kind && Get16(data, 18) == h.machine
    ensures Get16(data, 40) == h.ehsize && Get16(data, 42) == h.phentsize && Get16(data, 44) == h.phnum
    ensures Get16(data, 46) == h.shentsize && Get16(data, 48) == h.shnum && Get16(data, 50) == h.shstrndx
  {
    GetHalfAt(data, 16, [Half(h.kind), Half(h.machine)], 0);
    GetHalfAt(data, 16, [Half(h.kind), Half(h.machine)], 1);
    SixHalves(data, 40, FileHeaderHalves(h));
  }

  lemma FileHeaderReadsBack(data: seq<Byte>, h: FileHeader)
    requires FileHeaderFits(h) && At(data, 0, PackFileHeader(h))
    ensures ParseFileHeader(data) == Some(h)
  {
    FileHeaderParts(data, h);
    FileHeaderWordsBack(data, h);
    FileHeaderHalvesBack(data, h);
  }

  // ----- symbols -----

  /** The members of the enumerations STB, STT and STV. */
  predicate KnownBinding(bind: nat) {
    bind <= 2 || bind == 10 || bind == 12 || bind == 13 || bind == 15
  }

  predicate KnownSymbolType(symType: nat) {
    symType <= 6 || symType == 10 || symType == 12 || symType == 13 || symType == 15
  }

  predicate KnownVisibility(other: nat) {
    other <= 3
  }

  /** `(bind << 4) | type`, for types below 16 */
  function InfoByte(s: Symbol): Byte {
    (s.bind * 16 + s.symType) % 256
  }

  function PackSymbol(stName: int, s: Symbol): (b: seq<Byte>)
    ensures |b| == 16
  {
    PackWords([Word(stName), Word(s.value), Word(s.size)]) + ([InfoByte(s), s.other % 256] + Pack16(Half(s.shndx)))
  }

  predicate SymbolFits(stName: int, s: Symbol) {
    && IsWord(stName) && IsWord(s.value) && IsWord(s.size) && IsHalf(s.shndx)
    && KnownBinding(s.bind) && KnownSymbolType(s.symType) && KnownVisibility(s.other)
  }

  /** `ElfSymbol.read`: the offset of the name, and the symbol without its name */
  function ParseSymbol(data: seq<Byte>, pos: nat): Option<(nat, Symbol)> {
    if pos + 16 > |data| then None
    else
      var info: nat, other: nat := data[pos + 12], data[pos + 13];
      var shndx := Get16(data, pos + 14);
      var s := Symbol("", Get32(data, pos + 4), Get32(data, pos + 8), info / 16, info % 16, other, shndx);
      if KnownBinding(s.bind) && KnownSymbolType(s.symType) && KnownVisibility(s.other)
      then Some((Get32(data, pos), s)) else None
  }

  lemma ThreeWords(data: seq<Byte>, pos: nat, a: U32, b: U32, c: U32)
    requires At(data, pos, PackWords([a, b, c]))
    ensures Get32(data, pos) == a && Get32(data, pos + 4) == b && Get32(data, pos + 8) == c
  {
    GetWordAt(data, pos, [a, b, c], 0);
    GetWordAt(data, pos, [a, b, c], 1);
    GetWordAt(data, pos, [a, b, c], 2);
  }

  lemma SymbolTail(data: seq<Byte>, pos: nat, info: Byte, other: Byte, shndx: U16)
    requires At(data, pos, [info, other] + Pack16(shndx))
    ensures data[pos] == info && data[pos + 1] == other && Get16(data, pos + 2) == shndx
  {
    var two: seq<Byte> := [info, other];
    AtSplit(data, pos, two, Pack16(shndx));
    AtIndex(data, pos, two, 0);
    AtIndex(data, pos, two, 1);
    Get16At(data, pos + 2, shndx);
  }

  /** Binding and type come back out of the info byte. */
  lemma InfoSplits(s: Symbol)
    requires KnownBinding(s.bind) && KnownSymbolType(s.symType)
    ensures InfoByte(s) / 16 == s.bind && InfoByte(s) % 16 == s.symType
  {
    assert s.bind < 16 && s.symType < 16;
  }

  lemma SymbolWordsBack(data: seq<Byte>, pos: nat, stName: int, s: Symbol)
    requires SymbolFits(stName, s) && At(data, pos, PackWords([Word(stName), Word(s.value), Word(s.size)]))
    ensures Get32(data, pos) == stName && Get32(data, pos + 4) == s.value && Get32(data, pos + 8) == s.size
  {
    ThreeWords(data, pos, Word(stName), Word(s.value), Word(s.size));
  }

  lemma SymbolReadsBack(data: seq<Byte>, pos: nat, stName: int, s: Symbol)
    requires SymbolFits(stName, s) && At(data, pos, PackSymbol(stName, s))
    ensures ParseSymbol(data, pos) == Some((stName, s.(name := "")))
  {
    var words := PackWords([Word(stName), Word(s.value), Word(s.size)]);
    AtSplit(data, pos, words, [InfoByte(s), s.other % 256] + Pack16(Half(s.shndx)));
    SymbolWordsBack(data, pos, stName, s);
    SymbolTail(data, pos + 12, InfoByte(s), s.other % 256, Half(s.shndx));
    InfoSplits(s);
  }

  // ----- relocations -----

  function Signed(w: U32): int {
    if w >= 0x8000_0000 then w - 0x1_0000_0000 else w
  }

  predicate RelaFits(r: Rela) {
    IsWord(r.offset) && r.sym < 0x100_0000 && KnownType(r.kind) && -0x8000_0000 <= r.addend < 0x8000_0000
  }

  /** The info word is `(sym << 8) | type`, for types below 256. */
  function PackRela(r: Rela): (b: seq<Byte>)
    ensures |b| == 12
  {
    PackWords([Word(r.offset), Word(r.sym * 256 + r.kind), Word(r.addend)])
  }

  function ParseRela(data: seq<Byte>, pos: nat): Option<Rela> {
    if pos + 12 > |data| || !KnownType(Get32(data, pos + 4) % 256) then None
    else
      var info: nat := Get32(data, pos + 4);
      Some(Rela(Get32(data, pos), info / 256, info % 256, Signed(Get32(data, pos + 8))))
  }

  /** Symbol index and type come back out of the info word, and the sign of the addend survives. */
  lemma RelaFields(r: Rela)
    requires RelaFits(r)
    ensures Word(r.offset) == r.offset && Signed(Word(r.addend)) == r.addend
    ensures Word(r.sym * 256 + r.kind) / 256 == r.sym && Word(r.sym * 256 + r.kind) % 256 == r.kind
  {
    assert r.kind < 256;
  }

  lemma RelaReadsBack(data: seq<Byte>, pos: nat, r: Rela)
    requires RelaFits(r) && At(data, pos, PackRela(r))
    ensures ParseRela(data, pos) == Some(r)
  {
    ThreeWords(data, pos, Word(r.offset), Word(r.sym * 256 + r.kind), Word(r.addend));
    RelaFields(r);
  }
}
